/** The hand-written codec of the long-connection frames: cursors over octet
    buffers. */
module ProtoCodec {
  import opened Bytes
  import opened ProtoSpec

  // ---- Decoder -------------------------------------------------------------

  /** Reducing early or late makes no difference. */
  lemma ReduceEarly(a: nat, scale: nat, x: nat)
    ensures (a + scale * (x % U64)) % U64 == (a + scale * x) % U64
  {
    var q := x / U64;
    assert scale * x == scale * (x % U64) + scale * q * U64 by {
      assert x == x % U64 + q * U64;
    }
    AddMultiple(a + scale * (x % U64), scale * q);
  }

  lemma {:induction false} AddMultiple(a: nat, k: nat)
    ensures (a + k * U64) % U64 == a % U64
    decreases k
  {
    if k > 0 {
      AddMultiple(a, k - 1);
      var b := a + (k - 1) * U64;
      assert a + k * U64 == b + U64;
      assert (b + U64) % 0x1_0000_0000_0000_0000 == b % 0x1_0000_0000_0000_0000;
    }
  }

  lemma NextGroup(v: nat, scale: nat, group: nat, rest: nat)
    ensures (v + scale * ((group + 128 * rest) % U64)) % U64 == ((v + scale * group) % U64 + scale * 128 * rest) % U64
  {
    ReduceEarly(v, scale, group + 128 * rest);
    var w := v + scale * group;
    ReduceEarly(scale * 128 * rest, 1, w);
    assert v + scale * (group + 128 * rest) == w + scale * 128 * rest;
  }

  /** With `value` gathered before `pos`, the octets from `pos` on complete `whole`. */
  ghost predicate Completes(buf: seq<byte>, pos: nat, value: nat, scale: nat, whole: Cursor)
    requires pos <= |buf|
  {
    var rest := ReadVarint(buf, pos);
    whole == Cursor((value + scale * rest.value) % U64, rest.next)
  }

  /** One octet more. */
  lemma Gather(buf: seq<byte>, pos: nat, value: nat, scale: nat, whole: Cursor)
    requires pos < |buf| && Completes(buf, pos, value, scale, whole)
    ensures
      var gathered := (value + scale * (buf[pos] % 128)) % U64;
      if buf[pos] < 128 then whole == Cursor(gathered, pos + 1)
      else Completes(buf, pos + 1, gathered, scale * 128, whole)
  {
    if buf[pos] >= 128 {
      NextGroup(value, scale, buf[pos] % 128, ReadVarint(buf, pos + 1).value);
    }
  }

  lemma CompletesStart(buf: seq<byte>, pos: nat)
    requires pos <= |buf|
    ensures Completes(buf, pos, 0, 1, ReadVarint(buf, pos))
  {
  }

  lemma CompletesEnd(buf: seq<byte>, value: nat, scale: nat, whole: Cursor)
    requires Completes(buf, |buf|, value, scale, whole) && value < U64
    ensures whole == Cursor(value, |buf|)
  {
    assert scale * 0 == 0;
  }

  /** The group of one octet, shifted into place. */
  method GatherOctet(buf: seq<byte>, pos: nat, value: nat, scale: nat, ghost whole: Cursor) returns (gathered: nat)
    requires pos < |buf| && Completes(buf, pos, value, scale, whole)
    ensures gathered < U64
    ensures if buf[pos] < 128 then whole == Cursor(gathered, pos + 1)
            else Completes(buf, pos + 1, gathered, scale * 128, whole)
  {
    Gather(buf, pos, value, scale, whole);
    gathered := (value + scale * (buf[pos] % 128)) % U64;
  }

  method ParseVarint(buf: seq<byte>, start: nat) returns (value: nat, pos: nat)
    requires start <= |buf|
    ensures Cursor(value, pos) == ReadVarint(buf, start)
  {
    value, pos := 0, start;
    var scale: nat := 1;
    ghost var whole := ReadVarint(buf, start);
    CompletesStart(buf, start);
    while pos < |buf|
      invariant pos <= |buf| && value < U64
      invariant Completes(buf, pos, value, scale, whole)
    {
      value := GatherOctet(buf, pos, value, scale, whole);
      if buf[pos] < 128 {
        pos := pos + 1;
        return;
      }
      pos := pos + 1;
      scale := scale * 128;
    }
    CompletesEnd(buf, value, scale, whole);
  }

  method Skip(buf: seq<byte>, start: nat, wire: nat) returns (pos: nat)
    requires start <= |buf|
    ensures pos == SkipField(buf, start, wire)
  {
    pos := start;
    match wire {
      case 0 =>
        var _, next := ParseVarint(buf, pos);
        pos := next;
      case 1 => pos := pos + 8;
      case 2 =>
        var size, next := ParseVarint(buf, pos);
        pos := next;
        var n := ToInt32(size);
        if n > 0 && pos + n <= |buf| {
          pos := pos + n;
        }
      case 5 => pos := pos + 4;
      case _ =>
    }
  }

  /** One part, as the body of the header loop takes it. */
  method DecodePart(buf: seq<byte>, start: nat, fn: int, wire: nat, h: Header) returns (ok: bool, pos: nat, r: Header)
    requires start <= |buf|
    ensures (if ok then Scanned(pos, r) else Overrun) == ScanValue(buf, start, fn, wire, h)
    ensures !ok ==> r == h
  {
    ok, r := true, h;
    if wire == 2 {
      var size;
      size, pos := ParseVarint(buf, start);
      var n := ToInt32(size);
      if n < 0 || pos + n > |buf| {
        return false, pos, h;
      }
      r := WithPart(h, fn, buf[pos..pos + n]);
      pos := pos + n;
    } else {
      pos := Skip(buf, start, wire);
    }
  }

  method DecodeHeader(buf: seq<byte>, f: Frame) returns (r: Frame)
    ensures r == WithData(f, 5, buf)
  {
    var h := Header([], []);
    var i := 0;
    ghost var scan := ScanHeader(buf, 0, h);
    while i < |buf|
      invariant scan == ScanHeader(buf, i, h)
      decreases |buf| - i
    {
      var tag, next := ParseVarint(buf, i);
      ghost var part := ScanPart(buf, i, h);
      var ok;
      ok, i, h := DecodePart(buf, next, ToInt32(tag / 8), tag % 8, h);
      assert part == if ok then Scanned(i, h) else Overrun;
      if !ok {
        break;
      }
    }
    assert scan == h;
    r := WithHeader(f, AsText(h.key), AsText(h.text));
  }

  /** The value of one field, as the body of the decoder's loop takes it. */
  method DecodeValue(buf: seq<byte>, start: nat, fn: int, wire: nat, f: Frame) returns (ok: bool, pos: nat, r: Frame)
    requires start <= |buf|
    ensures (if ok then Next(pos, r) else Malformed) == ParseValue(buf, start, fn, wire, f)
    ensures !ok ==> r == f
  {
    ok, r := true, f;
    if 1 <= fn <= 4 {
      var value;
      value, pos := ParseVarint(buf, start);
      match fn {
        case 1 => r := f.(seqId := value);
        case 3 => r := f.(service := ToInt32(value));
        case 4 => r := f.(verb := ToInt32(value));
        case _ =>
      }
    } else if (fn == 5 || fn == 8) && wire == 2 {
      var size;
      size, pos := ParseVarint(buf, start);
      var n := ToInt32(size);
      if n < 0 || pos + n > |buf| {
        return false, pos, f;
      }
      if fn == 5 {
        r := DecodeHeader(buf[pos..pos + n], f);
      } else {
        r := f.(payload := buf[pos..pos + n]);
      }
      pos := pos + n;
    } else {
      pos := Skip(buf, start, wire);
    }
  }

  /** Advances on every field, so that it ends on any input. */
  method DecodeFrame(buf: seq<byte>) returns (ok: bool, f: Frame)
    ensures Parse(ok, f) == ParseFrame(buf, 0, EMPTY)
    ensures f.Valid()
  {
    ok, f := true, EMPTY;
    var i := 0;
    ParsedIsValid(buf, 0, EMPTY);
    while i < |buf|
      invariant ParseFrame(buf, 0, EMPTY) == ParseFrame(buf, i, f)
      decreases |buf| - i
    {
      var tag, next := ParseVarint(buf, i);
      ghost var field := ParseField(buf, i, f);
      ok, i, f := DecodeValue(buf, next, ToInt32(tag / 8), tag % 8, f);
      assert field == if ok then Next(i, f) else Malformed;
      if !ok {
        return;
      }
    }
  }

  // ---- Encoder -------------------------------------------------------------

  /** `s` was put at `start`, or it did not fit below `cap`; nothing before
      `start` and nothing from `cap` on has changed. */
  ghost predicate IsPut(was: seq<byte>, now: seq<byte>, start: nat, cap: nat, s: seq<byte>, pos: int) {
    && start <= cap <= |was| == |now|
    && pos == (if start + |s| <= cap then start + |s| else -1)
    && (pos >= 0 ==> now[..pos] == was[..start] + s)
    && now[..start] == was[..start] && now[cap..] == was[cap..]
  }

  twostate predicate Put(buf: array<byte>, start: nat, cap: nat, s: seq<byte>, pos: int)
    reads buf
  {
    IsPut(old(buf[..]), buf[..], start, cap, s, pos)
  }

  /** One thing after another is both, and the first failure is the end of it. */
  lemma PutTwice(was: seq<byte>, mid: seq<byte>, now: seq<byte>, start: nat, cap: nat, a: seq<byte>, b: seq<byte>,
                 at: int, pos: int)
    requires IsPut(was, mid, start, cap, a, at)
    requires if at < 0 then now == mid && pos == -1 else IsPut(mid, now, at, cap, b, pos)
    ensures IsPut(was, now, start, cap, a + b, pos)
  {
    if at >= 0 {
      assert mid[..start] == mid[..at][..start] && now[..start] == now[..at][..start];
      if pos >= 0 {
        assert was[..start] + a + b == was[..start] + (a + b);
      }
    }
  }

  /** Of `whole`, put at `start`, only `rest` is still to come, at `pos`; all else
      is as it was. */
  ghost predicate Writing(was: seq<byte>, now: seq<byte>, start: nat, cap: nat, pos: nat, whole: seq<byte>,
                          rest: seq<byte>) {
    && start <= pos <= cap <= |was| == |now|
    && now[..pos] + rest == was[..start] + whole
    && now[..start] == was[..start] && now[cap..] == was[cap..]
  }

  lemma WriteOctet(was: seq<byte>, now: seq<byte>, start: nat, cap: nat, pos: nat, whole: seq<byte>, rest: seq<byte>)
    requires Writing(was, now, start, cap, pos, whole, rest) && pos < cap && rest != []
    ensures Writing(was, now[pos := rest[0]], start, cap, pos + 1, whole, rest[1..])
  {
    var next := now[pos := rest[0]];
    assert next[..pos + 1] == now[..pos] + [rest[0]];
    assert rest == [rest[0]] + rest[1..];
    assert next[..pos + 1] + rest[1..] == now[..pos] + rest;
  }

  lemma WroteAll(was: seq<byte>, now: seq<byte>, start: nat, cap: nat, pos: nat, whole: seq<byte>, rest: seq<byte>)
    requires Writing(was, now, start, cap, pos, whole, rest) && (rest == [] || pos == cap)
    ensures if rest == [] then pos == start + |whole| && now[..pos] == was[..start] + whole else start + |whole| > cap
    ensures now[..start] == was[..start] && now[cap..] == was[cap..]
  {
    assert |now[..pos] + rest| == |was[..start] + whole|;
  }

  lemma VarintStart(v: nat)
    ensures Varint(v)[0] == (if v > 0x7f then 128 + v % 128 else v)
    ensures Varint(v)[1..] == if v > 0x7f then Varint(v / 128) else []
  {
  }

  method PutVarint(buf: array<byte>, start: nat, cap: nat, value: nat) returns (pos: int)
    requires start <= cap <= buf.Length
    modifies buf
    ensures Put(buf, start, cap, Varint(value), pos)
  {
    pos := start;
    var v := value;
    var more := true;
    ghost var was, whole, rest := buf[..], Varint(value), Varint(value);
    while more && pos < cap
      invariant 0 <= pos && Writing(was, buf[..], start, cap, pos, whole, rest)
      invariant rest == if more then Varint(v) else []
      decreases if more then v + 1 else 0
    {
      VarintStart(v);
      WriteOctet(was, buf[..], start, cap, pos, whole, rest);
      buf[pos] := if v > 0x7f then 128 + v % 128 else v;
      pos := pos + 1;
      rest := rest[1..];
      more := v > 0x7f;
      v := v / 128;
    }
    WroteAll(was, buf[..], start, cap, pos, whole, rest);
    if more {
      return -1;
    }
  }

  method PutLengthField(buf: array<byte>, start: nat, cap: nat, fn: nat, data: seq<byte>) returns (pos: int)
    requires start <= cap <= buf.Length
    modifies buf
    ensures Put(buf, start, cap, LengthField(fn, data), pos)
  {
    ghost var was, tag, size := buf[..], Varint(8 * fn + 2), Varint(|data|);
    pos := PutVarint(buf, start, cap, 8 * fn + 2);
    if pos < 0 {
      PutTwice(was, buf[..], buf[..], start, cap, tag, size + data, pos, pos);
      assert tag + (size + data) == LengthField(fn, data);
      return;
    }
    ghost var first, at := buf[..], pos;
    pos := PutVarint(buf, pos, cap, |data|);
    PutTwice(was, first, buf[..], start, cap, tag, size, at, pos);
    ghost var second, behind := buf[..], pos;
    if pos >= 0 {
      pos := PutOctets(buf, pos, cap, data);
    }
    PutTwice(was, second, buf[..], start, cap, tag + size, data, behind, pos);
  }

  /** memcpy, if it fits. */
  method PutOctets(buf: array<byte>, start: nat, cap: nat, data: seq<byte>) returns (pos: int)
    requires start <= cap <= buf.Length
    modifies buf
    ensures Put(buf, start, cap, data, pos)
  {
    if start + |data| > cap {
      return -1;
    }
    forall i | 0 <= i < |data| {
      buf[start + i] := data[i];
    }
    pos := start + |data|;
    assert buf[..pos] == buf[..start] + data;
  }

  method PutNumberField(buf: array<byte>, start: nat, cap: nat, fn: nat, value: nat) returns (pos: int)
    requires start <= cap <= buf.Length
    modifies buf
    ensures Put(buf, start, cap, NumberField(fn, value), pos)
  {
    ghost var was := buf[..];
    pos := PutVarint(buf, start, cap, 8 * fn);
    ghost var first, at := buf[..], pos;
    if pos >= 0 {
      pos := PutVarint(buf, pos, cap, value);
    }
    PutTwice(was, first, buf[..], start, cap, Varint(8 * fn), Varint(value), at, pos);
  }

  /** Builds the header message in a buffer of 256 octets before placing it. */
  method PutEntry(buf: array<byte>, start: nat, cap: nat, key: seq<byte>, text: seq<byte>) returns (pos: int)
    requires start <= cap <= buf.Length
    modifies buf
    ensures |HeaderMessage(key, text)| <= 256 ==>
              Put(buf, start, cap, LengthField(5, HeaderMessage(key, text)), pos)
    ensures |HeaderMessage(key, text)| > 256 ==> pos == -1 && buf[..] == old(buf[..])
  {
    var tmp := new byte[256];
    pos := PutLengthField(tmp, 0, 256, 1, key);
    if pos < 0 {
      return;
    }
    pos := PutLengthField(tmp, pos, 256, 2, text);
    if pos < 0 {
      return;
    }
    assert tmp[..pos] == HeaderMessage(key, text);
    pos := PutLengthField(buf, start, cap, 5, tmp[..pos]);
  }

  /** Of the octets `all`, those before `pos` are written and those of `rest`
      are still to come; a negative `pos` means that `all` does not fit. */
  ghost predicate Building(buf: seq<byte>, pos: int, cap: nat, rest: seq<byte>, all: seq<byte>)
    requires cap <= |buf|
  {
    if pos < 0 then pos == -1 && |all| > cap
    else pos <= cap && buf[..pos] + rest == all
  }

  lemma Advance(was: seq<byte>, at: nat, s: seq<byte>, buf: seq<byte>, pos: int, cap: nat, rest: seq<byte>,
                all: seq<byte>)
    requires cap <= |buf| && at <= |was| && at <= cap && was[..at] + (s + rest) == all
    requires pos == (if at + |s| <= cap then at + |s| else -1)
    requires pos >= 0 ==> buf[..pos] == was[..at] + s
    ensures Building(buf, pos, cap, rest, all)
  {
    assert |all| == at + |s| + |rest|;
    if pos >= 0 {
      assert (was[..at] + s) + rest == was[..at] + (s + rest);
    }
  }

  method AddNumber(buf: array<byte>, start: int, cap: nat, fn: nat, value: nat, ghost rest: Fields,
                   ghost all: seq<byte>)
    returns (pos: int)
    requires cap <= buf.Length && Building(buf[..], start, cap, More(Number(fn, value), rest).Octets(), all)
    modifies buf
    ensures Building(buf[..], pos, cap, rest.Octets(), all) && buf[cap..] == old(buf[cap..])
  {
    pos := start;
    if pos >= 0 {
      pos := PutNumberField(buf, start, cap, fn, value);
      Advance(old(buf[..]), start, NumberField(fn, value), buf[..], pos, cap, rest.Octets(), all);
    }
  }

  /** The entry of an identifier, unless it is empty. */
  method AddText(buf: array<byte>, start: int, cap: nat, key: seq<byte>, text: seq<byte>, ghost rest: Fields,
                 ghost all: seq<byte>)
    returns (pos: int)
    requires cap <= buf.Length && |key| <= 10 && |text| <= 63
    requires Building(buf[..], start, cap, WithText(key, text, rest).Octets(), all)
    modifies buf
    ensures Building(buf[..], pos, cap, rest.Octets(), all) && buf[cap..] == old(buf[cap..])
  {
    pos := start;
    if pos >= 0 && text != [] {
      MessageSize(key, text);
      pos := PutEntry(buf, start, cap, key, text);
      Advance(old(buf[..]), start, Entry(key, text).Octets(), buf[..], pos, cap, rest.Octets(), all);
    }
  }

  method AddPayload(buf: array<byte>, start: int, cap: nat, data: seq<byte>, ghost all: seq<byte>) returns (pos: int)
    requires cap <= buf.Length && Building(buf[..], start, cap, More(Payload(data), End).Octets(), all)
    modifies buf
    ensures Building(buf[..], pos, cap, [], all) && buf[cap..] == old(buf[cap..])
  {
    pos := start;
    if pos >= 0 {
      pos := PutLengthField(buf, start, cap, 8, data);
      Advance(old(buf[..]), start, LengthField(8, data), buf[..], pos, cap, End.Octets(), all);
    }
  }

  /** Writes exactly the acknowledgement of `f`, or fails because it does not
      fit; 208 octets always hold it. */
  method EncodeAck(buf: array<byte>, cap: nat, f: Frame) returns (pos: int)
    requires cap <= buf.Length && f.Valid()
    modifies buf
    ensures pos == (if |AckFields(f).Octets()| <= cap then |AckFields(f).Octets()| else -1)
    ensures pos >= 0 ==> buf[..pos] == AckFields(f).Octets()
    ensures cap >= 208 ==> pos >= 0
    ensures buf[cap..] == old(buf[cap..])
  {
    hide Varint, LengthField, NumberField, HeaderMessage, FromInt32;
    AckSize(f);
    KeysAreText();
    ghost var all := AckFields(f).Octets();
    ghost var trace := WithText(TRACE_ID, f.traceId, LAST);
    ghost var message := WithText(MESSAGE_ID, f.messageId, trace);
    ghost var entries := AckEntries(f);
    ghost var verb := More(Number(4, FromInt32(f.verb)), entries);
    ghost var service := More(Number(3, FromInt32(f.service)), verb);
    pos := AddNumber(buf, 0, cap, 1, f.seqId, More(Number(2, 0), service), all);
    pos := AddNumber(buf, pos, cap, 2, 0, service, all);
    pos := AddNumber(buf, pos, cap, 3, FromInt32(f.service), verb, all);
    pos := AddNumber(buf, pos, cap, 4, FromInt32(f.verb), entries, all);
    pos := AddText(buf, pos, cap, TYPE, ACK, message, all);
    pos := AddText(buf, pos, cap, MESSAGE_ID, f.messageId, trace, all);
    pos := AddText(buf, pos, cap, TRACE_ID, f.traceId, LAST, all);
    pos := AddPayload(buf, pos, cap, ACK_PAYLOAD, all);
  }

  /** The acknowledgement of any frame the decoder can produce fits its 512
      octets, and the other side reads back what it acknowledges. */
  method SendDataAck(f: Frame, buf: array<byte>) returns (length: int)
    requires buf.Length == 512 && f.Valid()
    modifies buf
    ensures 0 <= length <= 208
    ensures ParseFrame(buf[..length], 0, EMPTY) ==
            Parse(true, Frame(f.seqId, f.service, f.verb, ACK, f.messageId, f.traceId, [], [], ACK_PAYLOAD))
  {
    AckSize(f);
    AckRoundTrip(f);
    length := EncodeAck(buf, 512, f);
  }
}
