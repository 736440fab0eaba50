/** The client's frame sender and receiver. */
module WsClient {
  import opened Bytes
  import opened WsFrames
  import opened WsStream

  /** `n` shifted right by `i` octets. */
  function Shifted(n: nat, i: nat): nat {
    if i == 0 then n else Shifted(n, i - 1) / 256
  }

  /** The eight octets of a long length. */
  method PutLongLength(header: array<byte>, length: nat)
    requires header.Length == 14
    modifies header
    ensures header[2..10] == BigEndian(length, 8)
    ensures header[0] == old(header[0]) && header[1] == old(header[1])
  {
    var hlen, i := 2, 7;
    while i >= 0
      invariant -1 <= i <= 7 && hlen == 9 - i
      invariant header[0] == old(header[0]) && header[1] == old(header[1])
      invariant header[2..hlen] == BigEndian(Shifted(length, i + 1), 7 - i)
    {
      header[hlen] := Shifted(length, i) % 256;
      assert header[2..hlen + 1] == header[2..hlen] + [Shifted(length, i) % 256];
      assert Shifted(length, i + 1) == Shifted(length, i) / 256;
      hlen := hlen + 1;
      i := i - 1;
    }
    assert Shifted(length, 0) == length;
  }

  method PutLength(header: array<byte>, length: nat) returns (hlen: nat)
    requires header.Length == 14
    modifies header
    ensures 2 <= hlen <= 10 && header[0] == old(header[0]) && header[1..hlen] == Length(length, 128)
  {
    if length < 126 {
      header[1] := 0x80 + length;
      hlen := 2;
    } else if length < 0x1_0000 {
      TwoOctets(length);
      header[1] := 0x80 + 126;
      header[2] := length / 256 % 256;
      header[3] := length % 256;
      hlen := 4;
    } else {
      header[1] := 0x80 + 127;
      PutLongLength(header, length);
      hlen := 10;
      assert header[1..10] == [header[1]] + header[2..10];
    }
  }

  /** The header octets of a masked frame. */
  method BuildHeader(opcode: byte, length: nat, mask: seq<byte>) returns (header: array<byte>, hlen: nat)
    requires |mask| == 4
    ensures fresh(header) && hlen <= header.Length == 14
    ensures header[..hlen] == [0x80 + opcode % 16] + Length(length, 128) + mask
  {
    header := new byte[14];
    header[0] := 0x80 + opcode % 16;
    hlen := PutLength(header, length);
    ghost var start := header[..hlen];
    assert start == [header[0]] + header[1..hlen];
    header[hlen], header[hlen + 1], header[hlen + 2], header[hlen + 3] := mask[0], mask[1], mask[2], mask[3];
    assert header[..hlen] == start && header[hlen..hlen + 4] == mask;
    hlen := hlen + 4;
    assert header[..hlen] == start + mask;
  }

  /** Part of what was to be written, after an earlier part. */
  lemma PrefixGrows(before: seq<byte>, all: seq<byte>, from: nat, to: nat, n: nat)
    requires from <= to <= |all| && n <= to - from
    ensures before + all[..from] + all[from..to][..n] == before + all[..from + n]
  {
  }

  /** One masked chunk of the payload. */
  method MaskChunk(data: seq<byte>, mask: seq<byte>, offset: nat, chunk: array<byte>, todo: nat)
    requires |mask| == 4 && todo <= chunk.Length && offset + todo <= |data|
    modifies chunk
    ensures chunk[..todo] == Masked(data, mask)[offset..offset + todo]
  {
    for i := 0 to todo
      invariant forall k :: 0 <= k < i ==> chunk[k] == Masked(data, mask)[offset + k]
    {
      MaskedAt(data, mask, offset + i);
      chunk[i] := Xor(data[offset + i], mask[(offset + i) % 4]);
    }
  }

  /** Sends the masked payload in chunks. */
  method SendPayload(stream: Stream, data: seq<byte>, mask: seq<byte>) returns (ok: bool)
    requires |mask| == 4
    modifies stream`outgoing, stream`writeSizes, stream`credits
    ensures ok <==> |data| <= old(stream.credits)
    ensures stream.outgoing == old(stream.outgoing) + Masked(data, mask)[..Min(|data|, old(stream.credits))]
  {
    ghost var before, credits, masked := stream.outgoing, stream.credits, Masked(data, mask);
    var chunk := new byte[256];
    var offset := 0;
    while offset < |data|
      invariant 0 <= offset <= |data| && offset <= credits
      invariant stream.outgoing == before + masked[..offset] && stream.credits == credits - offset
    {
      var todo := |data| - offset;
      if todo > chunk.Length {
        todo := chunk.Length;
      }
      MaskChunk(data, mask, offset, chunk, todo);
      PrefixGrows(before, masked, offset, offset + todo, Min(todo, stream.credits));
      ok := stream.WriteAll(chunk[..todo]);
      if !ok {
        return;
      }
      offset := offset + todo;
    }
    ok := true;
  }

  /** Sends exactly the masked frame, whatever the size of its chunks; if the
      connection fails, what is out is a beginning of the frame. */
  method SendFrame(stream: Stream, connected: bool, opcode: byte, data: seq<byte>, mask: seq<byte>) returns (ret: int)
    requires |data| < 0x1_0000_0000_0000_0000 && |mask| == 4
    modifies stream`outgoing, stream`writeSizes, stream`credits
    ensures !connected ==> ret == -1 && stream.outgoing == old(stream.outgoing)
    ensures connected ==> ret == if |ClientFrame(opcode, mask, data)| <= old(stream.credits) then 0 else -1
    ensures connected ==>
              stream.outgoing == old(stream.outgoing) +
                ClientFrame(opcode, mask, data)[..Min(|ClientFrame(opcode, mask, data)|, old(stream.credits))]
  {
    if !connected {
      return -1;
    }
    var header, hlen := BuildHeader(opcode, |data|, mask);
    TwoParts(stream.outgoing, header[..hlen], Masked(data, mask), stream.credits);
    var ok := stream.WriteAll(header[..hlen]);
    if !ok {
      return -1;
    }
    ok := SendPayload(stream, data, mask);
    ret := if ok then 0 else -1;
  }

  /** What is out after one part, and after both. */
  lemma TwoParts(before: seq<byte>, a: seq<byte>, b: seq<byte>, credits: nat)
    ensures
      var sent := before + (a + b)[..Min(|a + b|, credits)];
      && (|a| > credits ==> sent == before + a[..credits])
      && (|a| <= credits ==> sent == before + a[..|a|] + b[..Min(|b|, credits - |a|)])
  {
  }

  /** The length octets and the mask. */
  method ReadHead(stream: Stream, short: nat, masked: bool) returns (ok: bool, length: nat, mask: seq<byte>)
    requires short < 128
    modifies stream`incoming, stream`readSizes
    ensures
      var head := ParseHead(short, masked, old(stream.incoming), true);
      && ok == head.Head? && stream.incoming == head.rest
      && (ok ==> length == head.length && mask == head.mask)
  {
    length, mask := short, [];
    var ext;
    if short == 126 {
      ok, ext := stream.ReadOctets(2);
      if !ok {
        return;
      }
      length := ext[0];
      length := length * 256 + ext[1];
      FromTwoOctets(ext);
    } else if short == 127 {
      ok, ext := stream.ReadOctets(8);
      if !ok {
        return;
      }
      length := 0;
      for i := 0 to 8
        invariant length == FromBigEndian(ext[..i])
      {
        assert ext[..i + 1][..i] == ext[..i];
        length := length * 256 + ext[i];
      }
      assert ext[..8] == ext;
    }
    ok := true;
    if masked {
      ok, mask := stream.ReadOctets(4);
    }
  }

  /** Receives what ClientParse says of the stream, however it is cut into reads. */
  method RecvFrame(stream: Stream, connected: bool, buf: array<byte>, capacity: nat) returns (ret: int, opcode: nat)
    requires 0 < capacity <= buf.Length
    modifies stream`incoming, stream`readSizes, buf
    ensures !connected ==> ret == -1 && stream.incoming == old(stream.incoming)
    ensures connected ==>
              var r := ClientParse(old(stream.incoming), capacity);
              && ret == r.ret && stream.incoming == r.rest
              && (ret >= 0 ==> |r.payload| == ret < capacity && buf[..ret] == r.payload && buf[ret] == 0)
              && (ret >= 0 ==> opcode == old(stream.incoming)[0] % 16)
  {
    opcode := 0;
    if !connected {
      return -1, opcode;
    }
    ghost var s := stream.incoming;
    var ok, b0 := stream.ReadOctets(1);
    if !ok {
      return -1, opcode;
    }
    var b1;
    ok, b1 := stream.ReadOctets(1);
    if !ok {
      return -1, opcode;
    }
    assert s[1..][1..] == s[2..] && b1[0] == s[1];
    opcode := b0[0] % 16;
    var length, mask;
    ok, length, mask := ReadHead(stream, b1[0] % 128, b1[0] >= 128);
    if !ok {
      return -1, opcode;
    }
    ret := RecvPayload(stream, buf, capacity, length, mask);
  }

  /** Keeps what fits of the payload, drops the rest, and unmasks. */
  method RecvPayload(stream: Stream, buf: array<byte>, capacity: nat, length: nat, mask: seq<byte>) returns (ret: int)
    requires 0 < capacity <= buf.Length && (|mask| == 0 || |mask| == 4)
    modifies stream`incoming, stream`readSizes, buf
    ensures
      var r := ClientBody(Head(length, mask, old(stream.incoming)), capacity);
      && ret == r.ret && stream.incoming == r.rest
      && (ret >= 0 ==> |r.payload| == ret < capacity && buf[..ret] == r.payload && buf[ret] == 0)
  {
    ghost var rest := stream.incoming;
    var total := Min(length, capacity - 1);
    var ok := stream.ReadExact(buf, total);
    if !ok {
      return -1;
    }
    assert buf[..total] == buf[0..total] == rest[..total];
    ok := Discard(stream, length - total);
    if !ok {
      return -1;
    }
    assert rest[total..][length - total..] == rest[length..];
    Finish(buf, total, mask);
    ret := total;
  }

  /** Reads and drops, octet by octet. */
  method Discard(stream: Stream, n: nat) returns (ok: bool)
    modifies stream`incoming, stream`readSizes
    ensures ok <==> n <= |old(stream.incoming)|
    ensures stream.incoming == Behind(n, old(stream.incoming))
  {
    ghost var s := stream.incoming;
    for i := 0 to n
      invariant i <= |s| && stream.incoming == s[i..]
    {
      var octet;
      ok, octet := stream.ReadOctets(1);
      if !ok {
        return;
      }
    }
    ok := true;
  }
}
