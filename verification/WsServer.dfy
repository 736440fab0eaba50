/** The gateway's frame sender and receiver. */
module WsServer {
  import opened Bytes
  import opened WsFrames
  import opened WsStream

  /** The connection takes `n` octets without cutting any call short. */
  ghost predicate Steady(stream: Stream, n: nat)
    reads stream
  {
    stream.writeSizes == [] && n <= stream.credits
  }

  /** `reply` and nothing else went out, on a connection that takes it. */
  twostate predicate Replied(stream: Stream, reply: seq<byte>)
    reads stream
  {
    && (reply == [] ==> stream.outgoing == old(stream.outgoing))
    && (old(Steady(stream, |reply|)) ==>
          && stream.outgoing == old(stream.outgoing) + reply
          && stream.writeSizes == [] && stream.credits == old(stream.credits) - |reply|)
  }

  /** Sends exactly the text frame or reports a failure, after which only a
      beginning of the frame is out. */
  method SendFrame(stream: Stream, payload: seq<byte>) returns (ret: int)
    modifies stream`outgoing, stream`writeSizes, stream`credits
    ensures ret == 0 || ret == -1
    ensures |payload| >= 0x1_0000 ==> ret == -1 && stream.outgoing == old(stream.outgoing)
    ensures ret == 0 ==> stream.outgoing == old(stream.outgoing) + ServerFrame(payload)
    ensures
      var sent := |stream.outgoing| - |old(stream.outgoing)|;
      0 <= sent <= |ServerFrame(payload)| && stream.outgoing == old(stream.outgoing) + ServerFrame(payload)[..sent]
    ensures |payload| < 0x1_0000 && old(Steady(stream, |ServerFrame(payload)|)) ==> ret == 0
  {
    var hdr: seq<byte>;
    if |payload| < 126 {
      hdr := [0x81, |payload|];
    } else if |payload| < 0x1_0000 {
      TwoOctets(|payload|);
      hdr := [0x81, 126, |payload| / 256 % 256, |payload| % 256];
    } else {
      return -1;
    }
    ghost var before, frame := stream.outgoing, ServerFrame(payload);
    assert frame == hdr + payload;
    var n := stream.Send(hdr);
    if n != |hdr| {
      assert n >= 0 ==> hdr[..n] == frame[..n];
      return -1;
    }
    assert hdr[..n] == hdr;
    n := stream.Send(payload);
    assert n >= 0 ==> before + hdr + payload[..n] == before + frame[..|hdr| + n];
    assert before + hdr == before + frame[..|hdr|];
    ret := if n == |payload| then 0 else -1;
  }

  /** The length octets and the mask. */
  method ReadHead(stream: Stream, short: nat, masked: bool) returns (ok: bool, length: nat, mask: seq<byte>)
    requires short < 128
    modifies stream`incoming, stream`readSizes
    ensures
      var head := ParseHead(short, masked, old(stream.incoming), false);
      && ok == head.Head? && stream.incoming == head.rest
      && (ok ==> length == head.length && mask == head.mask)
  {
    length, mask := short, [];
    if short == 126 {
      var ext;
      ok, ext := stream.ReadOctets(2);
      if !ok {
        return;
      }
      length := ext[0];
      length := length * 256 + ext[1];
      FromTwoOctets(ext);
    } else if short == 127 {
      return false, length, mask;
    }
    ok := true;
    if masked {
      ok, mask := stream.ReadOctets(4);
    }
  }

  /** The first two octets. */
  method ReadStart(stream: Stream) returns (ok: bool, b0: byte, b1: byte)
    modifies stream`incoming, stream`readSizes
    ensures stream.incoming == Behind(2, old(stream.incoming)) && (ok <==> |old(stream.incoming)| >= 2)
    ensures ok ==> b0 == old(stream.incoming)[0] && b1 == old(stream.incoming)[1]
  {
    b0, b1 := 0, 0;
    var octet;
    ok, octet := stream.ReadOctets(1);
    if ok {
      b0 := octet[0];
      ok, octet := stream.ReadOctets(1);
      if ok {
        b1 := octet[0];
      }
    }
  }

  /** Receives what ServerParse says of the stream, however it is cut into reads. */
  method RecvFrame(stream: Stream, buf: array<byte>, capacity: nat) returns (ret: int)
    requires 0 < capacity <= buf.Length
    modifies stream, buf
    ensures
      var r := ServerParse(old(stream.incoming), capacity);
      && ret == r.ret && stream.incoming == r.rest
      && (ret > 0 ==> ret == |r.payload| < capacity && buf[..ret] == r.payload && buf[ret] == 0)
      && Replied(stream, r.reply)
  {
    var ok, b0, b1 := ReadStart(stream);
    if !ok {
      return -1;
    }
    var opcode := b0 % 16;
    if opcode == CLOSE {
      return 0;
    }
    if !Control(opcode) && opcode != TEXT && opcode != BINARY {
      return -2;
    }
    ghost var s := old(stream.incoming);
    ServerParseOf(s, opcode, ParseHead(b1 % 128, b1 >= 128, s[2..], false), capacity);
    ret := RecvBody(stream, opcode, b1, buf, capacity);
  }

  /** What follows the first two octets of a frame that is not skipped. */
  method RecvBody(stream: Stream, opcode: nat, b1: byte, buf: array<byte>, capacity: nat) returns (ret: int)
    requires Control(opcode) || opcode == TEXT || opcode == BINARY
    requires 0 < capacity <= buf.Length
    modifies stream, buf
    ensures
      var head := ParseHead(b1 % 128, b1 >= 128, old(stream.incoming), false);
      var r := ServerBody(opcode, head, if Control(opcode) then 126 else capacity);
      && ret == r.ret && stream.incoming == r.rest
      && (ret > 0 ==> ret == |r.payload| < capacity && buf[..ret] == r.payload && buf[ret] == 0)
      && Replied(stream, r.reply)
  {
    var ok, length, mask := ReadHead(stream, b1 % 128, b1 >= 128);
    if !ok {
      return -1;
    }
    if Control(opcode) {
      ret := RecvControl(stream, opcode, length, mask);
    } else {
      ret := RecvData(stream, opcode, buf, capacity, length, mask);
    }
  }

  /** The payload of a ping or pong; a ping is answered. */
  method RecvControl(stream: Stream, opcode: nat, length: nat, mask: seq<byte>) returns (ret: int)
    requires Control(opcode) && (|mask| == 0 || |mask| == 4)
    modifies stream
    ensures
      var r := ServerBody(opcode, Head(length, mask, old(stream.incoming)), 126);
      && ret == r.ret && stream.incoming == r.rest
      && Replied(stream, r.reply)
  {
    if length > 125 {
      return -1;
    }
    var ok, payload := ReadControl(stream, length, mask);
    if !ok {
      return -1;
    }
    if opcode == PING {
      SendPong(stream, payload);
    }
    ret := -2;
  }

  method ReadControl(stream: Stream, length: nat, mask: seq<byte>) returns (ok: bool, payload: seq<byte>)
    requires length <= 125 && (|mask| == 0 || |mask| == 4)
    modifies stream`incoming, stream`readSizes
    ensures ok <==> length <= |old(stream.incoming)|
    ensures stream.incoming == Behind(length, old(stream.incoming))
    ensures ok ==> payload == Unmasked(old(stream.incoming)[..length], mask)
  {
    var buf := new byte[125];
    ok := stream.ReadExact(buf, length);
    assert ok ==> buf[..length] == buf[0..length];
    if ok && mask != [] {
      Unmask(buf, length, mask);
    }
    payload := buf[..length];
  }

  method SendPong(stream: Stream, payload: seq<byte>)
    requires |payload| <= 125
    modifies stream`outgoing, stream`writeSizes, stream`credits
    ensures Replied(stream, [0x8a, |payload|] + payload)
  {
    ghost var before := stream.outgoing;
    var pong: seq<byte> := [0x8a, |payload|];
    var n := stream.Send(pong);
    assert pong[..2] == pong && payload[..|payload|] == payload;
    n := stream.Send(payload);
    assert before + pong + payload == before + (pong + payload);
  }

  /** Receives exactly `length` octets or reports the end of the stream. */
  method RecvExact(stream: Stream, buf: array<byte>, length: nat) returns (ok: bool)
    requires length <= buf.Length
    modifies stream`incoming, stream`readSizes, buf
    ensures ok <==> length <= |old(stream.incoming)|
    ensures stream.incoming == Behind(length, old(stream.incoming))
    ensures ok ==> buf[..length] == old(stream.incoming)[..length]
  {
    ghost var all := stream.incoming;
    var received := 0;
    while received < length
      invariant 0 <= received <= length && received <= |all| && stream.incoming == all[received..]
      invariant buf[..received] == all[..received]
    {
      ghost var got := buf[..received];
      var n := stream.Recv(buf, received, length - received);
      if n <= 0 {
        return false;
      }
      assert buf[..received + n] == buf[..received] + buf[received..received + n];
      assert all[..received + n] == all[..received] + all[received..][..n];
      received := received + n;
    }
    ok := true;
  }

  /** The payload of a text or binary frame. */
  method RecvData(stream: Stream, opcode: nat, buf: array<byte>, capacity: nat, length: nat, mask: seq<byte>)
    returns (ret: int)
    requires opcode == TEXT || opcode == BINARY
    requires 0 < capacity <= buf.Length && (|mask| == 0 || |mask| == 4)
    modifies stream`incoming, stream`readSizes, buf
    ensures
      var r := ServerBody(opcode, Head(length, mask, old(stream.incoming)), capacity);
      && ret == r.ret && stream.incoming == r.rest
      && (ret >= 0 ==> ret == |r.payload| < capacity && buf[..ret] == r.payload && buf[ret] == 0)
  {
    if length >= capacity {
      return -1;
    }
    var ok := RecvExact(stream, buf, length);
    if !ok {
      return -1;
    }
    Finish(buf, length, mask);
    ret := length;
  }

  /** A client's session: takes its messages until it closes, fails or ends. */
  method RunClient(stream: Stream) returns (payloads: seq<seq<byte>>)
    modifies stream
    ensures payloads == ServerLoop(old(stream.incoming), 4096).payloads
    ensures Replied(stream, ServerLoop(old(stream.incoming), 4096).replies)
  {
    hide ServerParse, ServerLoop;
    var buf := new byte[4096];
    payloads := [];
    ghost var whole, sent := ServerLoop(stream.incoming, 4096), [];
    while true
      invariant payloads + ServerLoop(stream.incoming, 4096).payloads == whole.payloads
      invariant sent + ServerLoop(stream.incoming, 4096).replies == whole.replies
      invariant sent == [] ==> stream.outgoing == old(stream.outgoing)
      invariant old(Steady(stream, |whole.replies|)) ==>
                  && stream.outgoing == old(stream.outgoing) + sent
                  && stream.writeSizes == [] && stream.credits == old(stream.credits) - |sent|
      decreases |stream.incoming|
    {
      ghost var s := stream.incoming;
      ghost var r, later := ServerParse(s, 4096), ServerLoop(ServerParse(s, 4096).rest, 4096);
      LoopUnfolds(s, 4096);
      var n := RecvFrame(stream, buf, 4096);
      if n == -1 || n == 0 {
        break;
      }
      if n != -2 {
        payloads := payloads + [buf[..n]];
      }
      assert sent + (r.reply + later.replies) == (sent + r.reply) + later.replies;
      sent := sent + r.reply;
    }
  }
}
