/** WebSocket frames as octets: what the two senders put on the wire and what
    the two receivers make of any stream (RFC 6455, sections 5.2 and 5.3). */
module WsFrames {
  import opened Bytes

  const TEXT := 1
  const BINARY := 2
  const CLOSE := 8
  const PING := 9
  const PONG := 10

  // ---- Numbers and masks ---------------------------------------------------

  /** The last `k` octets of `n`, most significant first. */
  function BigEndian(n: nat, k: nat): (r: seq<byte>)
    ensures |r| == k
  {
    if k == 0 then [] else BigEndian(n / 256, k - 1) + [n % 256]
  }

  function FromBigEndian(s: seq<byte>): nat {
    if s == [] then 0 else FromBigEndian(s[..|s| - 1]) * 256 + s[|s| - 1]
  }

  function Pow256(k: nat): nat { if k == 0 then 1 else 256 * Pow256(k - 1) }

  lemma {:induction false} BigEndianRoundTrip(n: nat, k: nat)
    requires n < Pow256(k)
    ensures FromBigEndian(BigEndian(n, k)) == n
  {
    if k > 0 {
      BigEndianRoundTrip(n / 256, k - 1);
      assert BigEndian(n, k)[..k - 1] == BigEndian(n / 256, k - 1);
    }
  }

  lemma TwoOctets(n: nat)
    ensures BigEndian(n, 2) == [n / 256 % 256, n % 256]
  {
    assert BigEndian(n / 256, 1) == BigEndian(n / 256 / 256, 0) + [n / 256 % 256];
  }

  lemma FromTwoOctets(s: seq<byte>)
    requires |s| == 2
    ensures var high: nat := s[0]; FromBigEndian(s) == high * 256 + s[1]
  {
    assert s[..1][..0] == [] && FromBigEndian(s[..1]) == s[0];
  }

  /** Octet `i` is combined with octet `i % 4` of the mask. */
  function Masked(p: seq<byte>, mask: seq<byte>): (r: seq<byte>)
    requires |mask| == 4
    ensures |r| == |p|
  {
    if p == [] then []
    else var i := |p| - 1; Masked(p[..i], mask) + [Xor(p[i], mask[i % 4])]
  }

  lemma {:induction false} MaskedAt(p: seq<byte>, mask: seq<byte>, i: nat)
    requires |mask| == 4 && i < |p|
    ensures Masked(p, mask)[i] == Xor(p[i], mask[i % 4])
    decreases |p|
  {
    if i < |p| - 1 {
      MaskedAt(p[..|p| - 1], mask, i);
    }
  }

  /** Masking twice with one key restores the payload. */
  lemma {:induction false} UnmaskRoundTrip(p: seq<byte>, mask: seq<byte>)
    requires |mask| == 4
    ensures Masked(Masked(p, mask), mask) == p
  {
    if p != [] {
      var i := |p| - 1;
      UnmaskRoundTrip(p[..i], mask);
      assert Masked(p, mask)[..i] == Masked(p[..i], mask);
      XorTwice(p[i], mask[i % 4]);
    }
  }

  // ---- Senders -------------------------------------------------------------

  /** The length octets; `flag` is the masking bit. */
  function Length(n: nat, flag: nat): (r: seq<byte>)
    requires flag == 0 || flag == 128
    ensures |r| >= 1
  {
    if n < 126 then [flag + n]
    else if n < 0x1_0000 then [flag + 126] + BigEndian(n, 2)
    else [flag + 127] + BigEndian(n, 8)
  }

  function ClientFrame(opcode: nat, mask: seq<byte>, p: seq<byte>): (r: seq<byte>)
    requires |mask| == 4
    ensures |r| > 0
  {
    [0x80 + opcode % 16] + Length(|p|, 128) + mask + Masked(p, mask)
  }

  function ServerFrame(p: seq<byte>): seq<byte> {
    [0x81] + Length(|p|, 0) + p
  }

  // ---- Receivers -----------------------------------------------------------

  /** Payload length, mask (empty if there is none) and what follows; or a
      failure and what is left of the stream. */
  datatype Head = NoHead(rest: seq<byte>) | Head(length: nat, mask: seq<byte>, rest: seq<byte>)

  /** The length octets behind the first two octets, then the mask; only a `wide`
      receiver takes eight length octets. */
  function ParseHead(short: nat, masked: bool, s: seq<byte>, wide: bool): (h: Head)
    requires short < 128
    ensures h.Head? ==> |h.mask| == if masked then 4 else 0
  {
    var more := if short == 126 then 2 else if short == 127 then 8 else 0;
    if short == 127 && !wide then NoHead(s)
    else if |s| < more then NoHead([])
    else
      var length, t := if more == 0 then short else FromBigEndian(s[..more]), s[more..];
      if !masked then Head(length, [], t)
      else if |t| < 4 then NoHead([])
      else Head(length, t[..4], t[4..])
  }

  function Unmasked(data: seq<byte>, mask: seq<byte>): seq<byte>
    requires |mask| == 0 || |mask| == 4
  {
    if mask == [] then data else Masked(data, mask)
  }

  /** A return code, the payload if there is one, what is left of the stream, and
      what was sent back. */
  datatype Result = Result(ret: int, payload: seq<byte>, rest: seq<byte>, reply: seq<byte>)

  function Failed(rest: seq<byte>): Result { Result(-1, [], rest, []) }

  predicate Control(opcode: nat) { opcode == PING || opcode == PONG }

  /** One call of the server's receiver on the stream `s`. */
  function ServerParse(s: seq<byte>, capacity: nat): Result {
    if |s| < 2 then Failed([])
    else
      var opcode, t := s[0] % 16, s[2..];
      if opcode == CLOSE then Result(0, [], t, [])
      else if Control(opcode) || opcode == TEXT || opcode == BINARY then
        ServerBody(opcode, ParseHead(s[1] % 128, s[1] >= 128, t, false), if Control(opcode) then 126 else capacity)
      else Result(-2, [], t, [])
  }

  function ServerBody(opcode: nat, head: Head, limit: nat): Result
    requires head.Head? ==> |head.mask| == 0 || |head.mask| == 4
  {
    match head
    case NoHead(rest) => Failed(rest)
    case Head(n, mask, rest) =>
      if n >= limit then Failed(rest)
      else if |rest| < n then Failed([])
      else ServerResult(opcode, Unmasked(rest[..n], mask), rest[n..])
  }

  function ServerResult(opcode: nat, payload: seq<byte>, rest: seq<byte>): Result {
    if opcode == PING then Result(-2, [], rest, [0x8a, |payload| % 256] + payload)
    else if opcode == PONG then Result(-2, [], rest, [])
    else Result(|payload|, payload, rest, [])
  }

  /** One call of the client's receiver: what does not fit is read and dropped. */
  function ClientParse(s: seq<byte>, capacity: nat): Result
    requires capacity > 0
  {
    if |s| < 2 then Failed([])
    else ClientBody(ParseHead(s[1] % 128, s[1] >= 128, s[2..], true), capacity)
  }

  function ClientBody(head: Head, capacity: nat): Result
    requires capacity > 0 && (head.Head? ==> |head.mask| == 0 || |head.mask| == 4)
  {
    match head
    case NoHead(rest) => Failed(rest)
    case Head(n, mask, rest) =>
      if |rest| < n then Failed([])
      else
        var kept := Min(n, capacity - 1);
        Result(kept, Unmasked(rest[..kept], mask), rest[n..], [])
  }

  // ---- The two sides together ----------------------------------------------

  lemma LengthRoundTrip(n: nat, flag: nat, rest: seq<byte>)
    requires n < 0x1_0000_0000_0000_0000 && (flag == 0 || flag == 128)
    ensures
      var l := Length(n, flag);
      var s := l[1..] + rest;
      var short := l[0] % 128;
      var more := if short == 126 then 2 else if short == 127 then 8 else 0;
      && (l[0] >= 128 <==> flag == 128) && (short == 127 <==> n >= 0x1_0000)
      && more <= |s| && s[more..] == rest
      && n == if more == 0 then short else FromBigEndian(s[..more])
  {
    assert Pow256(2) == 256 * (256 * 1);
    assert Pow256(8) == 256 * (256 * (256 * (256 * (256 * (256 * Pow256(2))))));
    var l := Length(n, flag);
    if 126 <= n < 0x1_0000 {
      BigEndianRoundTrip(n, 2);
      assert l[1..] == BigEndian(n, 2) && (l[1..] + rest)[..2] == l[1..];
    } else if n >= 0x1_0000 {
      BigEndianRoundTrip(n, 8);
      assert l[1..] == BigEndian(n, 8) && (l[1..] + rest)[..8] == l[1..];
    }
  }

  lemma HeadRoundTrip(n: nat, mask: seq<byte>, rest: seq<byte>, wide: bool)
    requires n < 0x1_0000 || (wide && n < 0x1_0000_0000_0000_0000)
    requires |mask| == 0 || |mask| == 4
    ensures
      var l := Length(n, if mask == [] then 0 else 128);
      && (l[0] >= 128 <==> mask != [])
      && ParseHead(l[0] % 128, l[0] >= 128, l[1..] + (mask + rest), wide) == Head(n, mask, rest)
  {
    LengthRoundTrip(n, if mask == [] then 0 else 128, mask + rest);
    assert (mask + rest)[|mask|..] == rest && (mask + rest)[..|mask|] == mask;
  }

  /** The parts of a frame in a stream. */
  lemma Layout(first: byte, l: seq<byte>, mask: seq<byte>, body: seq<byte>, rest: seq<byte>)
    requires |l| >= 1
    ensures
      var s := [first] + l + mask + body + rest;
      |s| >= 2 && s[0] == first && s[1] == l[0] && s[2..] == l[1..] + (mask + (body + rest))
    ensures (body + rest)[..|body|] == body && (body + rest)[|body|..] == rest
  {
  }

  lemma {:induction false} ServerBodyOf(opcode: nat, mask: seq<byte>, p: seq<byte>, rest: seq<byte>, limit: nat)
    requires |mask| == 4 && |p| < limit
    ensures ServerBody(opcode, Head(|p|, mask, Masked(p, mask) + rest), limit) == ServerResult(opcode, p, rest)
  {
    var body := Masked(p, mask);
    assert (body + rest)[..|p|] == body && (body + rest)[|p|..] == rest;
    UnmaskRoundTrip(p, mask);
  }

  lemma FirstOctet(opcode: nat)
    requires opcode < 16
    ensures opcode % 16 == opcode && (0x80 + opcode) % 16 == opcode
  {
  }

  lemma ServerParseOf(s: seq<byte>, opcode: nat, head: Head, capacity: nat)
    requires |s| >= 2 && s[0] % 16 == opcode && ParseHead(s[1] % 128, s[1] >= 128, s[2..], false) == head
    requires Control(opcode) || opcode == TEXT || opcode == BINARY
    ensures ServerParse(s, capacity) == ServerBody(opcode, head, if Control(opcode) then 126 else capacity)
  {
  }

  lemma {:induction false} ClientFrameHead(opcode: nat, mask: seq<byte>, p: seq<byte>, rest: seq<byte>)
    requires |mask| == 4 && opcode < 16 && |p| < 0x1_0000
    ensures
      var s := ClientFrame(opcode, mask, p) + rest;
      |s| >= 2 && s[0] % 16 == opcode
      && ParseHead(s[1] % 128, s[1] >= 128, s[2..], false) == Head(|p|, mask, Masked(p, mask) + rest)
  {
    var body, l := Masked(p, mask), Length(|p|, 128);
    FirstOctet(opcode);
    Layout(0x80 + opcode, l, mask, body, rest);
    HeadRoundTrip(|p|, mask, body + rest, false);
  }

  /** Whatever the mask, the server gets a client's text or binary frame as it
      was sent if it fits, answers a ping with its payload, ignores a pong, and in
      every case reads exactly the frame's octets. */
  lemma ServerReadsClient(opcode: nat, mask: seq<byte>, p: seq<byte>, rest: seq<byte>, capacity: nat)
    requires |mask| == 4 && |p| < 0x1_0000
    requires if opcode == 9 || opcode == 10 then |p| <= 125 else (opcode == 1 || opcode == 2) && |p| < capacity
    ensures ServerParse(ClientFrame(opcode, mask, p) + rest, capacity) ==
            if opcode == 9 then Result(-2, [], rest, [0x8a, |p|] + p)
            else if opcode == 10 then Result(-2, [], rest, [])
            else Result(|p|, p, rest, [])
  {
    hide ServerParse, ParseHead, ServerBody, ClientFrame;
    ClientFrameHead(opcode, mask, p, rest);
    var head := Head(|p|, mask, Masked(p, mask) + rest);
    ServerParseOf(ClientFrame(opcode, mask, p) + rest, opcode, head, capacity);
    ServerBodyOf(opcode, mask, p, rest, if Control(opcode) then 126 else capacity);
  }

  /** A close ends the session, any other unknown frame is passed over after its
      first two octets, and a stream that ends within them is a failure. */
  lemma ServerEndsAndSkips(s: seq<byte>, capacity: nat)
    ensures |s| < 2 ==> ServerParse(s, capacity) == Result(-1, [], [], [])
    ensures |s| >= 2 && s[0] % 16 == 8 ==> ServerParse(s, capacity) == Result(0, [], s[2..], [])
    ensures |s| >= 2 && s[0] % 16 !in {1, 2, 8, 9, 10} ==> ServerParse(s, capacity) == Result(-2, [], s[2..], [])
  {
  }

  /** A text or binary frame that does not fit, a ping or pong of more than 125
      octets, and any 64-bit length are refused, and nothing is sent back. */
  lemma ServerRefuses(opcode: nat, mask: seq<byte>, p: seq<byte>, rest: seq<byte>, capacity: nat)
    requires |mask| == 4 && |p| < 0x1_0000_0000_0000_0000
    requires opcode == 1 || opcode == 2 || opcode == 9 || opcode == 10
    requires |p| >= 0x1_0000 || |p| >= (if opcode == 9 || opcode == 10 then 126 else capacity)
    ensures var r := ServerParse(ClientFrame(opcode, mask, p) + rest, capacity);
            r.ret == -1 && r.payload == [] && r.reply == []
  {
    var s := ClientFrame(opcode, mask, p) + rest;
    if |p| < 0x1_0000 {
      ClientFrameHead(opcode, mask, p, rest);
      ServerParseOf(s, opcode, Head(|p|, mask, Masked(p, mask) + rest), capacity);
    } else {
      FirstOctet(opcode);
      Layout(0x80 + opcode, Length(|p|, 128), mask, Masked(p, mask), rest);
      assert s[1] % 128 == 127;
      ServerParseOf(s, opcode, NoHead(s[2..]), capacity);
    }
  }

  /** The server takes a frame without a mask as it stands. */
  lemma ServerReadsUnmasked(p: seq<byte>, rest: seq<byte>, capacity: nat)
    requires |p| < 0x1_0000 && |p| < capacity
    ensures ServerParse(ServerFrame(p) + rest, capacity) == Result(|p|, p, rest, [])
  {
    var l, none := Length(|p|, 0), [];
    var s := ServerFrame(p) + rest;
    Layout(0x81, l, none, p, rest);
    assert [0x81] + l + none + p + rest == s;
    HeadRoundTrip(|p|, none, p + rest, false);
    assert s[1] == l[0] && s[2..] == l[1..] + (none + (p + rest));
    ServerParseOf(s, 1, Head(|p|, none, p + rest), capacity);
  }

  lemma {:induction false} MaskedPrefix(p: seq<byte>, mask: seq<byte>, n: nat)
    requires |mask| == 4 && n <= |p|
    ensures Masked(p, mask)[..n] == Masked(p[..n], mask)
    decreases |p|
  {
    if n < |p| {
      var front := p[..|p| - 1];
      MaskedPrefix(front, mask, n);
      assert front[..n] == p[..n] && Masked(p, mask)[..n] == Masked(front, mask)[..n];
    } else {
      assert p[..n] == p;
    }
  }

  lemma {:induction false} ClientBodyOf(mask: seq<byte>, p: seq<byte>, rest: seq<byte>, capacity: nat)
    requires |mask| == 4 && capacity > 0
    ensures ClientBody(Head(|p|, mask, Masked(p, mask) + rest), capacity) ==
            Result(Min(|p|, capacity - 1), p[..Min(|p|, capacity - 1)], rest, [])
  {
    var body, kept := Masked(p, mask), Min(|p|, capacity - 1);
    MaskedPrefix(p, mask, kept);
    UnmaskRoundTrip(p[..kept], mask);
    assert (body + rest)[..kept] == body[..kept] && (body + rest)[|p|..] == rest;
  }

  /** The client unmasks what is masked, and takes lengths of 64 bits. */
  lemma ClientReadsMasked(opcode: nat, mask: seq<byte>, p: seq<byte>, rest: seq<byte>, capacity: nat)
    requires |mask| == 4 && opcode < 16 && |p| < 0x1_0000_0000_0000_0000 && capacity > 0
    ensures ClientParse(ClientFrame(opcode, mask, p) + rest, capacity) ==
            Result(Min(|p|, capacity - 1), p[..Min(|p|, capacity - 1)], rest, [])
    ensures (ClientFrame(opcode, mask, p) + rest)[0] % 16 == opcode
  {
    hide ParseHead, Masked, Length, ClientBody;
    var body, l := Masked(p, mask), Length(|p|, 128);
    var s := ClientFrame(opcode, mask, p) + rest;
    FirstOctet(opcode);
    Layout(0x80 + opcode, l, mask, body, rest);
    HeadRoundTrip(|p|, mask, body + rest, true);
    var head := Head(|p|, mask, body + rest);
    assert ParseHead(s[1] % 128, s[1] >= 128, s[2..], true) == head;
    ClientBodyOf(mask, p, rest, capacity);
  }

  /** The client gets as much of a server's frame as its buffer holds, and reads
      exactly the frame's octets. */
  lemma ClientReadsServer(p: seq<byte>, rest: seq<byte>, capacity: nat)
    requires |p| < 0x1_0000 && capacity > 0
    ensures ClientParse(ServerFrame(p) + rest, capacity) ==
            Result(Min(|p|, capacity - 1), p[..Min(|p|, capacity - 1)], rest, [])
    ensures (ServerFrame(p) + rest)[0] % 16 == TEXT
  {
    var l, none := Length(|p|, 0), [];
    var s := ServerFrame(p) + rest;
    Layout(0x81, l, none, p, rest);
    assert [0x81] + l + none + p + rest == s;
    HeadRoundTrip(|p|, none, p + rest, true);
    var parse := ClientParse(s, capacity);
    assert s[1] == l[0] && s[2..] == l[1..] + (none + (p + rest));
    var head := ParseHead(s[1] % 128, s[1] >= 128, s[2..], true);
    assert parse == ClientBody(head, capacity);
    assert head == Head(|p|, none, p + rest);
    var kept := Min(|p|, capacity - 1);
    assert (p + rest)[..kept] == p[..kept];
  }

  // ---- Streams of frames ---------------------------------------------------

  /** What the client's receive loop takes from a stream until it ends or fails. */
  function ClientLoop(s: seq<byte>, capacity: nat): seq<seq<byte>>
    requires capacity > 0
    decreases |s|
  {
    var r := ClientParse(s, capacity);
    if |r.rest| >= |s| || r.ret < 0 then [] else [r.payload] + ClientLoop(r.rest, capacity)
  }

  function ServerWire(ps: seq<seq<byte>>): seq<byte> {
    if ps == [] then [] else ServerFrame(ps[0]) + ServerWire(ps[1..])
  }

  /** Each payload as far as the buffer holds it. */
  function Kept(ps: seq<seq<byte>>, capacity: nat): seq<seq<byte>>
    requires capacity > 0
  {
    if ps == [] then [] else [ps[0][..Min(|ps[0]|, capacity - 1)]] + Kept(ps[1..], capacity)
  }

  /** Any run of server frames is taken frame by frame: the client's loop gets the
      payloads in order, each as far as its buffer holds it. */
  lemma {:induction false} ClientLoopDelivers(ps: seq<seq<byte>>, capacity: nat)
    requires capacity > 0 && forall i :: 0 <= i < |ps| ==> |ps[i]| < 0x1_0000
    ensures ClientLoop(ServerWire(ps), capacity) == Kept(ps, capacity)
    decreases |ps|
  {
    if ps != [] {
      var s, rest := ServerWire(ps), ServerWire(ps[1..]);
      ClientReadsServer(ps[0], rest, capacity);
      var r := ClientParse(s, capacity);
      assert s == ServerFrame(ps[0]) + rest && r.rest == rest;
      ClientLoopDelivers(ps[1..], capacity);
    }
  }

  datatype ClientMessage = ClientMessage(opcode: nat, mask: seq<byte>, payload: seq<byte>)
  {
    /** What the server's receive loop can go on after. */
    predicate Valid(capacity: nat) {
      && |mask| == 4 && |payload| < 0x1_0000
      && if opcode == 9 || opcode == 10 then |payload| <= 125
         else (opcode == 1 || opcode == 2) && 0 < |payload| < capacity
    }

    function Octets(): seq<byte>
      requires |mask| == 4
    {
      ClientFrame(opcode, mask, payload)
    }
  }

  ghost predicate AllValid(ms: seq<ClientMessage>, capacity: nat) {
    forall i :: 0 <= i < |ms| ==> ms[i].Valid(capacity)
  }

  function Wire(ms: seq<ClientMessage>): seq<byte>
    requires forall i :: 0 <= i < |ms| ==> |ms[i].mask| == 4
  {
    if ms == [] then [] else ms[0].Octets() + Wire(ms[1..])
  }

  /** What a session takes from the stream, and what it sends back. */
  datatype Session = Session(payloads: seq<seq<byte>>, replies: seq<byte>)

  /** The server's receive loop on a stream: it skips ignored frames and ends at a
      close, an error or the end. */
  function ServerLoop(s: seq<byte>, capacity: nat): Session
    decreases |s|
  {
    var r := ServerParse(s, capacity);
    if |r.rest| >= |s| || r.ret == -1 || r.ret == 0 then Session([], [])
    else
      var later := ServerLoop(r.rest, capacity);
      Session((if r.ret == -2 then [] else [r.payload]) + later.payloads, r.reply + later.replies)
  }

  /** A failing or closing frame sends nothing; any other leaves a shorter stream. */
  lemma LoopUnfolds(s: seq<byte>, capacity: nat)
    ensures
      var r, session := ServerParse(s, capacity), ServerLoop(s, capacity);
      if r.ret == -1 || r.ret == 0 then session == Session([], []) && r.reply == []
      else
        && |r.rest| < |s| && (r.ret == -2 || r.ret == |r.payload|)
        && session.payloads == (if r.ret == -2 then [] else [r.payload]) + ServerLoop(r.rest, capacity).payloads
        && session.replies == r.reply + ServerLoop(r.rest, capacity).replies
  {
  }

  /** The payloads of the text and binary messages. */
  function DataOf(ms: seq<ClientMessage>): seq<seq<byte>> {
    if ms == [] then []
    else if ms[0].opcode == 1 || ms[0].opcode == 2 then [ms[0].payload] + DataOf(ms[1..])
    else DataOf(ms[1..])
  }

  /** A pong for every ping, with its payload. */
  function PongsOf(ms: seq<ClientMessage>): seq<int> {
    if ms == [] then []
    else if ms[0].opcode == 9 then [0x8a, |ms[0].payload|] + ms[0].payload + PongsOf(ms[1..])
    else PongsOf(ms[1..])
  }

  /** One message is taken, and the loop goes on with the rest. */
  lemma {:induction false} LoopStep(m: ClientMessage, rest: seq<byte>, capacity: nat)
    requires m.Valid(capacity)
    ensures
      var session, later := ServerLoop(m.Octets() + rest, capacity), ServerLoop(rest, capacity);
      && session.payloads == (if m.opcode == 1 || m.opcode == 2 then [m.payload] else []) + later.payloads
      && session.replies == (if m.opcode == 9 then [0x8a, |m.payload|] + m.payload else []) + later.replies
  {
    hide ServerParse, ClientFrame;
    var s := m.Octets() + rest;
    ServerReadsClient(m.opcode, m.mask, m.payload, rest, capacity);
    var r := ServerParse(s, capacity);
    assert r.rest == rest && |rest| < |s|;
  }

  /** Any run of valid frames, control frames among them, is taken frame by frame:
      the loop delivers exactly the payloads that were sent, in order, and sends
      back exactly the pongs of the pings, in order; what follows a close is not
      looked at. */
  lemma {:induction false} LoopDelivers(ms: seq<ClientMessage>, tail: seq<byte>, capacity: nat)
    requires AllValid(ms, capacity) && (tail == [] || (|tail| >= 2 && tail[0] % 16 == 8))
    ensures
      var session := ServerLoop(Wire(ms) + tail, capacity);
      session.payloads == DataOf(ms) && session.replies == PongsOf(ms)
    decreases |ms|
  {
    hide ServerParse, ClientMessage.Octets;
    if ms == [] {
      ServerEndsAndSkips(tail, capacity);
      assert Wire(ms) + tail == tail;
    } else {
      var m, rest := ms[0], Wire(ms[1..]) + tail;
      assert Wire(ms) + tail == m.Octets() + rest;
      LoopStep(m, rest, capacity);
      hide ServerLoop;
      LoopDelivers(ms[1..], tail, capacity);
    }
  }
}
