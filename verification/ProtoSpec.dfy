/** The long-connection frames of the messaging service as octets: varints,
    length-delimited fields, and what the frame parser makes of them. */
module ProtoSpec {
  import opened Bytes

  const U64 := 0x1_0000_0000_0000_0000
  const U32 := 0x1_0000_0000

  // ---- Varints -------------------------------------------------------------

  /** Seven bits to the octet, least significant first; the top bit announces
      another octet. */
  function Varint(v: nat): (r: seq<byte>)
    ensures |r| >= 1
  {
    if v < 128 then [v] else [128 + v % 128] + Varint(v / 128)
  }

  datatype Cursor = Cursor(value: nat, next: nat)

  /** Reads to an octet without its top bit, or to the end; bits beyond the
      sixty-fourth are lost. */
  function ReadVarint(buf: seq<byte>, pos: nat): (r: Cursor)
    requires pos <= |buf|
    ensures pos <= r.next <= |buf| && (pos < |buf| ==> pos < r.next)
    ensures r.value < U64
    decreases |buf| - pos
  {
    if pos == |buf| then Cursor(0, pos)
    else if buf[pos] < 128 then Cursor(buf[pos], pos + 1)
    else
      var rest := ReadVarint(buf, pos + 1);
      Cursor((buf[pos] % 128 + 128 * rest.value) % 0x1_0000_0000_0000_0000, rest.next)
  }

  function ToInt32(v: nat): (n: int)
    ensures -0x8000_0000 <= n < 0x8000_0000
  {
    if v % 0x1_0000_0000 < 0x8000_0000 then v % 0x1_0000_0000 else v % 0x1_0000_0000 - U32
  }

  /** The unsigned conversion that the encoder applies to a 32-bit integer. */
  function FromInt32(n: int): nat
    requires -0x8000_0000 <= n < 0x8000_0000
  {
    if n < 0 then n + U32 else n
  }

  function Pow128(n: nat): nat { if n == 0 then 1 else 128 * Pow128(n - 1) }

  lemma {:induction false} VarintFits(v: nat, n: nat)
    requires v < Pow128(n) && n > 0
    ensures |Varint(v)| <= n
  {
    if v >= 128 {
      assert n > 1 by {
        assert Pow128(1) == 128 * Pow128(0);
      }
      VarintFits(v / 128, n - 1);
    }
  }

  /** A varint of 64 bits takes at most ten octets, one of 32 bits at most five,
      one of 14 bits at most two. */
  lemma VarintSizes(v: nat)
    ensures v < U64 ==> |Varint(v)| <= 10
    ensures v < U32 ==> |Varint(v)| <= 5
    ensures v < 0x4000 ==> |Varint(v)| <= 2
    ensures v < 128 ==> |Varint(v)| == 1
  {
    var p2, p5 := Pow128(2), Pow128(5);
    assert p2 == 128 * (128 * 1);
    assert p5 == 128 * (128 * (128 * p2));
    assert Pow128(10) == 128 * (128 * (128 * (128 * (128 * p5))));
    if v < U64 { VarintFits(v, 10); }
    if v < U32 { VarintFits(v, 5); }
    if v < 0x4000 { VarintFits(v, 2); }
  }

  /** The octets `s` stand in `buf` from `pos` on. */
  predicate At(buf: seq<byte>, pos: nat, s: seq<byte>) {
    pos + |s| <= |buf| && buf[pos..pos + |s|] == s
  }

  lemma SplitAt(buf: seq<byte>, pos: nat, a: seq<byte>, b: seq<byte>)
    requires At(buf, pos, a + b)
    ensures At(buf, pos, a) && At(buf, pos + |a|, b)
  {
    var all := buf[pos..pos + |a + b|];
    assert all[..|a|] == a && all[|a|..] == b;
  }

  /** Reading back a varint gives its value and stops right behind it, whatever
      surrounds it. */
  lemma {:induction false} VarintRoundTrip(buf: seq<byte>, pos: nat, v: nat)
    requires v < U64 && At(buf, pos, Varint(v))
    ensures pos + |Varint(v)| <= |buf|
    ensures ReadVarint(buf, pos) == Cursor(v, pos + |Varint(v)|)
    decreases v
  {
    assert buf[pos] == Varint(v)[0];
    if v >= 128 {
      SplitAt(buf, pos, [128 + v % 128], Varint(v / 128));
      VarintRoundTrip(buf, pos + 1, v / 128);
      assert (128 + v % 128) % 128 == v % 128;
    }
  }

  // ---- Frames --------------------------------------------------------------

  /** Text as the frame structure keeps it; a NUL ends it. */
  predicate NulFree(s: seq<byte>) { forall i :: 0 <= i < |s| ==> s[i] != 0 }

  function AsText(s: seq<byte>): (r: seq<byte>)
    ensures NulFree(r) && |r| <= |s| && (NulFree(s) ==> r == s)
  {
    if s == [] || s[0] == 0 then [] else [s[0]] + AsText(s[1..])
  }

  function First(s: seq<byte>, n: nat): (r: seq<byte>)
    ensures |r| <= n && (NulFree(s) ==> NulFree(r)) && (|s| <= n ==> r == s)
  {
    s[..Min(|s|, n)]
  }

  /** `sum` and `index` keep the decimal text of their headers. */
  datatype Frame = Frame(seqId: nat, service: int, verb: int, kind: seq<byte>, messageId: seq<byte>, traceId: seq<byte>,
                         sum: seq<byte>, index: seq<byte>, payload: seq<byte>)
  {
    predicate Valid() {
      && seqId < U64
      && -0x8000_0000 <= service < 0x8000_0000 && -0x8000_0000 <= verb < 0x8000_0000
      && NulFree(messageId) && |messageId| <= 63 && NulFree(traceId) && |traceId| <= 63
    }
  }

  const EMPTY := Frame(0, 0, 0, [], [], [], [], [], [])

  const TYPE: seq<byte> := [116, 121, 112, 101]
  const MESSAGE_ID: seq<byte> := [109, 101, 115, 115, 97, 103, 101, 95, 105, 100]
  const TRACE_ID: seq<byte> := [116, 114, 97, 99, 101, 95, 105, 100]
  const SUM: seq<byte> := [115, 117, 109]
  const SEQ: seq<byte> := [115, 101, 113]
  const ACK: seq<byte> := [97, 99, 107]
  /** {"code":200} */
  const ACK_PAYLOAD: seq<byte> := [123, 34, 99, 111, 100, 101, 34, 58, 50, 48, 48, 125]

  function WithHeader(f: Frame, key: seq<byte>, text: seq<byte>): Frame {
    if key == TYPE then f.(kind := First(text, 31))
    else if key == MESSAGE_ID then f.(messageId := First(text, 63))
    else if key == TRACE_ID then f.(traceId := First(text, 63))
    else if key == SUM then f.(sum := text)
    else if key == SEQ then f.(index := text)
    else f
  }

  function SkipField(buf: seq<byte>, pos: nat, wire: nat): (next: nat)
    requires pos <= |buf|
    ensures next >= pos
  {
    match wire
    case 0 => ReadVarint(buf, pos).next
    case 1 => pos + 8
    case 2 =>
      var r := ReadVarint(buf, pos);
      var n := ToInt32(r.value);
      if n > 0 && r.next + n <= |buf| then r.next + n else r.next
    case 5 => pos + 4
    case _ => pos
  }

  /** Key and value as copied, up to their buffers' sizes. */
  datatype Header = Header(key: seq<byte>, text: seq<byte>)

  datatype Scan = Overrun | Scanned(next: nat, header: Header)

  /** One part of a header message, right behind its tag. */
  function ScanValue(buf: seq<byte>, i: nat, fn: int, wire: nat, h: Header): (o: Scan)
    requires i <= |buf|
    ensures o.Scanned? ==> o.next >= i
  {
    if wire == 2 then
      var r := ReadVarint(buf, i);
      var n := ToInt32(r.value);
      if n < 0 || r.next + n > |buf| then Overrun
      else Scanned(r.next + n, WithPart(h, fn, buf[r.next..r.next + n]))
    else Scanned(SkipField(buf, i, wire), h)
  }

  function ScanPart(buf: seq<byte>, i: nat, h: Header): (o: Scan)
    requires i < |buf|
    ensures o.Scanned? ==> o.next > i
  {
    var tag := ReadVarint(buf, i);
    ScanValue(buf, tag.next, ToInt32(tag.value / 8), tag.value % 8, h)
  }

  /** Key and value of a header message; a length that overruns it ends the scan. */
  function ScanHeader(buf: seq<byte>, i: nat, h: Header): Header
    decreases |buf| - i
  {
    if i >= |buf| then h
    else
      match ScanPart(buf, i, h)
      case Overrun => h
      case Scanned(next, header) => ScanHeader(buf, next, header)
  }

  function WithPart(h: Header, fn: int, data: seq<byte>): Header {
    if fn == 1 then h.(key := First(data, 31))
    else if fn == 2 then h.(text := First(data, 127))
    else h
  }

  datatype Outcome = Malformed | Next(next: nat, frame: Frame)

  /** One field of a frame. */
  function ParseField(buf: seq<byte>, i: nat, f: Frame): (o: Outcome)
    requires i < |buf|
    ensures o.Next? ==> o.next > i
  {
    var tag := ReadVarint(buf, i);
    ParseValue(buf, tag.next, ToInt32(tag.value / 8), tag.value % 8, f)
  }

  /** The value of field `fn` with wire type `wire`, right behind its tag. */
  function ParseValue(buf: seq<byte>, i: nat, fn: int, wire: nat, f: Frame): (o: Outcome)
    requires i <= |buf|
    ensures o.Next? ==> o.next >= i
  {
    var r := ReadVarint(buf, i);
    var n := ToInt32(r.value);
    if fn == 1 then Next(r.next, f.(seqId := r.value))
    else if fn == 2 then Next(r.next, f)
    else if fn == 3 then Next(r.next, f.(service := n))
    else if fn == 4 then Next(r.next, f.(verb := n))
    else if (fn == 5 || fn == 8) && wire == 2 then
      if n < 0 || r.next + n > |buf| then Malformed
      else Next(r.next + n, WithData(f, fn, buf[r.next..r.next + n]))
    else Next(SkipField(buf, i, wire), f)
  }

  function WithData(f: Frame, fn: int, data: seq<byte>): Frame {
    if fn == 5 then
      var h := ScanHeader(data, 0, Header([], []));
      WithHeader(f, AsText(h.key), AsText(h.text))
    else f.(payload := data)
  }

  datatype Parse = Parse(ok: bool, frame: Frame)

  /** All fields from `i` on, in order. */
  function ParseFrame(buf: seq<byte>, i: nat, f: Frame): Parse
    decreases |buf| - i
  {
    if i >= |buf| then Parse(true, f)
    else
      match ParseField(buf, i, f)
      case Malformed => Parse(false, f)
      case Next(next, frame) => ParseFrame(buf, next, frame)
  }

  /** Whatever octets arrive, the identifiers the parser keeps are short and
      free of NULs, so that they can be echoed. */
  lemma {:induction false} ParsedIsValid(buf: seq<byte>, i: nat, f: Frame)
    requires f.Valid()
    ensures ParseFrame(buf, i, f).frame.Valid()
    decreases |buf| - i
  {
    if i < |buf| {
      FieldKeepsValid(buf, i, f);
      var o := ParseField(buf, i, f);
      if o.Next? {
        ParsedIsValid(buf, o.next, o.frame);
      }
    }
  }

  lemma FieldKeepsValid(buf: seq<byte>, i: nat, f: Frame)
    requires f.Valid() && i < |buf|
    ensures var o := ParseField(buf, i, f); o.Next? ==> o.frame.Valid()
  {
    var tag := ReadVarint(buf, i);
    ValueKeepsValid(buf, tag.next, ToInt32(tag.value / 8), tag.value % 8, f);
  }

  lemma ValueKeepsValid(buf: seq<byte>, i: nat, fn: int, wire: nat, f: Frame)
    requires f.Valid() && i <= |buf|
    ensures var o := ParseValue(buf, i, fn, wire, f); o.Next? ==> o.frame.Valid()
  {
    hide ReadVarint, ScanHeader, SkipField, AsText;
  }

  // ---- Fields --------------------------------------------------------------

  function NumberField(fn: nat, v: nat): seq<byte> { Varint(8 * fn) + Varint(v) }

  function LengthField(fn: nat, data: seq<byte>): seq<byte> { Varint(8 * fn + 2) + Varint(|data|) + data }

  function HeaderMessage(key: seq<byte>, text: seq<byte>): seq<byte> { LengthField(1, key) + LengthField(2, text) }

  function FixedField(fn: nat, wire: nat, data: seq<byte>): seq<byte> { Varint(8 * fn + wire) + data }

  /** What an encoder may put in a frame; `Unknown` stands for the
      length-delimited fields this parser has no use for, `Fixed64` and `Fixed32`
      for the values of eight and four octets. */
  datatype Field =
    | Number(fn: nat, value: nat)
    | Entry(key: seq<byte>, text: seq<byte>)
    | Payload(data: seq<byte>)
    | Unknown(fn: nat, data: seq<byte>)
    | Fixed64(fn: nat, data: seq<byte>)
    | Fixed32(fn: nat, data: seq<byte>)
  {
    predicate Valid() {
      match this
      case Number(fn, v) => 1 <= fn < 0x1000_0000 && v < U64
      case Entry(_, _) => |HeaderMessage(key, text)| < 0x8000_0000
      case Payload(data) => |data| < 0x8000_0000
      case Unknown(fn, data) => (fn == 6 || fn == 7 || 9 <= fn < 0x1000_0000) && |data| < 0x8000_0000
      case Fixed64(fn, data) => 5 <= fn < 0x1000_0000 && |data| == 8
      case Fixed32(fn, data) => 5 <= fn < 0x1000_0000 && |data| == 4
    }

    function Octets(): seq<byte> {
      match this
      case Number(fn, v) => NumberField(fn, v)
      case Entry(key, text) => LengthField(5, HeaderMessage(key, text))
      case Payload(data) => LengthField(8, data)
      case Unknown(fn, data) => LengthField(fn, data)
      case Fixed64(fn, data) => FixedField(fn, 1, data)
      case Fixed32(fn, data) => FixedField(fn, 5, data)
    }

    /** What the field tells about the frame. */
    function On(f: Frame): Frame {
      match this
      case Number(fn, v) =>
        if fn == 1 then f.(seqId := v)
        else if fn == 3 then f.(service := ToInt32(v))
        else if fn == 4 then f.(verb := ToInt32(v))
        else f
      case Entry(key, text) => WithHeader(f, AsText(First(key, 31)), AsText(First(text, 127)))
      case Payload(data) => f.(payload := data)
      case _ => f
    }
  }

  datatype Fields = End | More(field: Field, rest: Fields)
  {
    predicate Valid() { More? ==> field.Valid() && rest.Valid() }

    function Octets(): seq<byte> {
      if End? then [] else field.Octets() + rest.Octets()
    }

    function On(f: Frame): Frame {
      if End? then f else rest.On(field.On(f))
    }
  }

  /** A field's tag reads back as its number and wire type. */
  lemma TagAt(buf: seq<byte>, pos: nat, fn: nat, wire: nat)
    requires fn < 0x1000_0000 && wire < 8 && At(buf, pos, Varint(8 * fn + wire))
    ensures pos < |buf| && pos + |Varint(8 * fn + wire)| <= |buf|
    ensures
      var tag := ReadVarint(buf, pos);
      tag.next == pos + |Varint(8 * fn + wire)| && ToInt32(tag.value / 8) == fn && tag.value % 8 == wire
  {
    VarintRoundTrip(buf, pos, 8 * fn + wire);
  }

  lemma SizeAt(buf: seq<byte>, pos: nat, n: nat)
    requires n < 0x8000_0000 && At(buf, pos, Varint(n))
    ensures pos + |Varint(n)| <= |buf|
    ensures
      var r := ReadVarint(buf, pos);
      r.next == pos + |Varint(n)| && ToInt32(r.value) == n
  {
    VarintRoundTrip(buf, pos, n);
  }

  lemma LengthFieldParts(buf: seq<byte>, pos: nat, fn: nat, data: seq<byte>)
    requires At(buf, pos, LengthField(fn, data))
    ensures At(buf, pos, Varint(8 * fn + 2)) && At(buf, pos + |Varint(8 * fn + 2)|, Varint(|data|))
    ensures At(buf, pos + |Varint(8 * fn + 2)| + |Varint(|data|)|, data)
    ensures |LengthField(fn, data)| == |Varint(8 * fn + 2)| + |Varint(|data|)| + |data|
  {
    var tag, size := Varint(8 * fn + 2), Varint(|data|);
    SplitAt(buf, pos, tag + size, data);
    SplitAt(buf, pos, tag, size);
  }

  /** Where the parts of a length-delimited field lie. */
  lemma LengthFieldAt(buf: seq<byte>, pos: nat, fn: nat, data: seq<byte>)
    requires 1 <= fn < 0x1000_0000 && |data| < 0x8000_0000 && At(buf, pos, LengthField(fn, data))
    ensures pos < |buf|
    ensures
      var tag := ReadVarint(buf, pos);
      var r := ReadVarint(buf, tag.next);
      && ToInt32(tag.value / 8) == fn && tag.value % 8 == 2 && ToInt32(r.value) == |data|
      && r.next + |data| == pos + |LengthField(fn, data)| <= |buf| && buf[r.next..r.next + |data|] == data
  {
    LengthFieldParts(buf, pos, fn, data);
    hide ReadVarint, Varint, ToInt32, LengthField;
    TagAt(buf, pos, fn, 2);
    SizeAt(buf, pos + |Varint(8 * fn + 2)|, |data|);
  }

  lemma NumberFieldParts(buf: seq<byte>, pos: nat, fn: nat, v: nat)
    requires At(buf, pos, NumberField(fn, v))
    ensures At(buf, pos, Varint(8 * fn)) && At(buf, pos + |Varint(8 * fn)|, Varint(v))
    ensures |NumberField(fn, v)| == |Varint(8 * fn)| + |Varint(v)|
  {
    SplitAt(buf, pos, Varint(8 * fn), Varint(v));
  }

  lemma {:induction false} NumberFieldAt(buf: seq<byte>, pos: nat, fn: nat, v: nat)
    requires 1 <= fn < 0x1000_0000 && v < U64 && At(buf, pos, NumberField(fn, v))
    ensures pos < |buf|
    ensures
      var tag := ReadVarint(buf, pos);
      && ToInt32(tag.value / 8) == fn && tag.value % 8 == 0
      && ReadVarint(buf, tag.next) == Cursor(v, pos + |NumberField(fn, v)|)
  {
    hide ReadVarint, Varint, ToInt32, NumberField;
    NumberFieldParts(buf, pos, fn, v);
    TagAt(buf, pos, fn, 0);
    VarintRoundTrip(buf, pos + |Varint(8 * fn)|, v);
  }

  /** One length-delimited part of a header message. */
  lemma PartAt(buf: seq<byte>, pos: nat, fn: nat, data: seq<byte>, h: Header)
    requires 1 <= fn < 0x1000_0000 && |data| < 0x8000_0000 && At(buf, pos, LengthField(fn, data))
    ensures ScanHeader(buf, pos, h) == ScanHeader(buf, pos + |LengthField(fn, data)|, WithPart(h, fn, data))
  {
    var scan, next := ScanHeader(buf, pos, h), pos + |LengthField(fn, data)|;
    LengthFieldScans(buf, pos, fn, data, h);
    assert scan == ScanHeader(buf, next, WithPart(h, fn, data));
  }

  lemma LengthFieldScans(buf: seq<byte>, pos: nat, fn: nat, data: seq<byte>, h: Header)
    requires 1 <= fn < 0x1000_0000 && |data| < 0x8000_0000 && At(buf, pos, LengthField(fn, data))
    ensures pos < |buf|
    ensures ScanPart(buf, pos, h) == Scanned(pos + |LengthField(fn, data)|, WithPart(h, fn, data))
  {
    LengthFieldAt(buf, pos, fn, data);
  }

  /** The parts of a header message, in order. */
  datatype Parts = NoParts | Part(fn: nat, data: seq<byte>, rest: Parts)
  {
    predicate Valid() { Part? ==> 1 <= fn < 0x1000_0000 && |data| < 0x8000_0000 && rest.Valid() }

    function Octets(): seq<byte> {
      if NoParts? then [] else LengthField(fn, data) + rest.Octets()
    }

    function FirstLength(): nat
      requires Part?
    {
      |LengthField(fn, data)|
    }

    function On(h: Header): Header {
      if NoParts? then h else rest.On(WithPart(h, fn, data))
    }
  }

  /** The first of several parts is scanned, and the rest follows. */
  lemma ScanOn(buf: seq<byte>, pos: nat, parts: Parts, h: Header)
    requires parts.Part? && parts.Valid() && At(buf, pos, parts.Octets())
    ensures At(buf, pos + parts.FirstLength(), parts.rest.Octets())
    ensures |parts.Octets()| == parts.FirstLength() + |parts.rest.Octets()|
    ensures ScanHeader(buf, pos, h) ==
            ScanHeader(buf, pos + parts.FirstLength(), WithPart(h, parts.fn, parts.data))
  {
    hide ReadVarint, ToInt32, Varint, SkipField, ScanPart;
    SplitAt(buf, pos, LengthField(parts.fn, parts.data), parts.rest.Octets());
    PartAt(buf, pos, parts.fn, parts.data, h);
  }

  /** Behind the octets of any parts the scan goes on with what they mean. */
  lemma {:induction false} PartsThen(buf: seq<byte>, pos: nat, parts: Parts, h: Header)
    requires parts.Valid() && At(buf, pos, parts.Octets())
    ensures ScanHeader(buf, pos, h) == ScanHeader(buf, pos + |parts.Octets()|, parts.On(h))
    decreases parts
  {
    hide ReadVarint, ToInt32, Varint, SkipField, ScanPart, LengthField;
    if parts.Part? {
      var next, g := pos + parts.FirstLength(), WithPart(h, parts.fn, parts.data);
      ScanOn(buf, pos, parts, h);
      var scan := ScanHeader(buf, pos, h);
      assert scan == ScanHeader(buf, next, g);
      PartsThen(buf, next, parts.rest, g);
      assert scan == ScanHeader(buf, next + |parts.rest.Octets()|, parts.rest.On(g));
    }
  }

  /** Scanning the octets of any parts, in any order and with any repetition, gives
      exactly what the parts mean. */
  lemma ScanRoundTrip(buf: seq<byte>, pos: nat, parts: Parts, h: Header)
    requires parts.Valid() && At(buf, pos, parts.Octets()) && pos + |parts.Octets()| == |buf|
    ensures ScanHeader(buf, pos, h) == parts.On(h)
  {
    PartsThen(buf, pos, parts, h);
  }

  /** A header message gives back its key and its value, cut to the sizes the
      scanner keeps. */
  lemma HeaderRoundTrip(key: seq<byte>, text: seq<byte>)
    requires |HeaderMessage(key, text)| < 0x8000_0000
    ensures ScanHeader(HeaderMessage(key, text), 0, Header([], [])) ==
            Header(First(key, 31), First(text, 127))
  {
    hide ReadVarint, Varint, ScanHeader;
    var buf, second := HeaderMessage(key, text), Part(2, text, NoParts);
    assert second.Octets() == LengthField(2, text) + NoParts.Octets() && NoParts.Octets() == [];
    assert Part(1, key, second).Octets() == LengthField(1, key) + second.Octets() == buf;
    assert buf[0..|buf|] == buf;
    assert |key| < |buf| && |text| < |buf| && NoParts.Valid() && second.Valid();
    ScanRoundTrip(buf, 0, Part(1, key, second), Header([], []));
    var h1 := WithPart(Header([], []), 1, key);
    assert Part(1, key, second).On(Header([], [])) == second.On(h1) == NoParts.On(WithPart(h1, 2, text));
  }

  lemma MessageAt(buf: seq<byte>, pos: nat, message: seq<byte>, f: Frame)
    requires |message| < 0x8000_0000 && At(buf, pos, LengthField(5, message))
    ensures pos < |buf|
    ensures ParseField(buf, pos, f) == Next(pos + |LengthField(5, message)|, WithData(f, 5, message))
  {
    hide ReadVarint, Varint, ScanHeader, ToInt32, LengthField, SkipField, AsText;
    LengthFieldAt(buf, pos, 5, message);
  }

  lemma EntryRoundTrip(buf: seq<byte>, pos: nat, key: seq<byte>, text: seq<byte>, f: Frame)
    requires |HeaderMessage(key, text)| < 0x8000_0000
    requires At(buf, pos, LengthField(5, HeaderMessage(key, text)))
    ensures pos < |buf|
    ensures ParseField(buf, pos, f) == Next(pos + |LengthField(5, HeaderMessage(key, text))|, Entry(key, text).On(f))
  {
    var message := HeaderMessage(key, text);
    HeaderRoundTrip(key, text);
    assert WithData(f, 5, message) == Entry(key, text).On(f);
    MessageAt(buf, pos, message, f);
  }

  lemma DataRoundTrip(buf: seq<byte>, pos: nat, fn: nat, data: seq<byte>, f: Frame)
    requires 6 <= fn < 0x1000_0000 && |data| < 0x8000_0000 && At(buf, pos, LengthField(fn, data))
    ensures pos < |buf|
    ensures ParseField(buf, pos, f) == Next(pos + |LengthField(fn, data)|, if fn == 8 then f.(payload := data) else f)
  {
    LengthFieldAt(buf, pos, fn, data);
  }

  lemma FixedRoundTrip(buf: seq<byte>, pos: nat, fn: nat, wire: nat, data: seq<byte>, f: Frame)
    requires 5 <= fn < 0x1000_0000 && At(buf, pos, FixedField(fn, wire, data))
    requires (wire == 1 && |data| == 8) || (wire == 5 && |data| == 4)
    ensures pos < |buf|
    ensures ParseField(buf, pos, f) == Next(pos + |FixedField(fn, wire, data)|, f)
  {
    SplitAt(buf, pos, Varint(8 * fn + wire), data);
    TagAt(buf, pos, fn, wire);
  }

  lemma FieldRoundTrip(buf: seq<byte>, pos: nat, field: Field, f: Frame)
    requires field.Valid() && At(buf, pos, field.Octets())
    ensures pos < |buf| && ParseField(buf, pos, f) == Next(pos + |field.Octets()|, field.On(f))
  {
    match field
    case Number(fn, v) => NumberFieldAt(buf, pos, fn, v);
    case Entry(key, text) => EntryRoundTrip(buf, pos, key, text, f);
    case Payload(data) => DataRoundTrip(buf, pos, 8, data, f);
    case Unknown(fn, data) => DataRoundTrip(buf, pos, fn, data, f);
    case Fixed64(fn, data) => FixedRoundTrip(buf, pos, fn, 1, data, f);
    case Fixed32(fn, data) => FixedRoundTrip(buf, pos, fn, 5, data, f);
  }

  /** The first of several fields is parsed, and the rest follows. */
  lemma ParseOn(buf: seq<byte>, pos: nat, field: Field, rest: seq<byte>, f: Frame)
    requires field.Valid() && At(buf, pos, field.Octets() + rest)
    ensures At(buf, pos + |field.Octets()|, rest)
    ensures ParseFrame(buf, pos, f) == ParseFrame(buf, pos + |field.Octets()|, field.On(f))
  {
    hide ReadVarint, Varint, ToInt32, SkipField, ParseField, LengthField, NumberField;
    var next, g := pos + |field.Octets()|, field.On(f);
    var parse, after := ParseFrame(buf, pos, f), ParseFrame(buf, next, g);
    SplitAt(buf, pos, field.Octets(), rest);
    FieldRoundTrip(buf, pos, field, f);
    assert parse == after;
  }

  /** Behind the octets of any fields the parser goes on with what they mean. */
  lemma {:induction false} FieldsThen(buf: seq<byte>, pos: nat, fs: Fields, f: Frame)
    requires fs.Valid() && At(buf, pos, fs.Octets())
    ensures ParseFrame(buf, pos, f) == ParseFrame(buf, pos + |fs.Octets()|, fs.On(f))
    decreases fs
  {
    hide ReadVarint, Varint, ToInt32, SkipField, ParseField, LengthField, NumberField;
    if fs.More? {
      var g, next := fs.field.On(f), pos + |fs.field.Octets()|;
      ParseOn(buf, pos, fs.field, fs.rest.Octets(), f);
      var parse := ParseFrame(buf, pos, f);
      assert parse == ParseFrame(buf, next, g);
      FieldsThen(buf, next, fs.rest, g);
      assert parse == ParseFrame(buf, next + |fs.rest.Octets()|, fs.rest.On(g));
      assert fs.On(f) == fs.rest.On(g);
    }
  }

  /** Parsing the octets of any fields, in any order and with any repetition,
      gives exactly what the fields mean; unknown fields leave no trace. */
  lemma {:induction false} FrameRoundTrip(buf: seq<byte>, pos: nat, fs: Fields, f: Frame)
    requires fs.Valid() && At(buf, pos, fs.Octets()) && pos + |fs.Octets()| == |buf|
    ensures ParseFrame(buf, pos, f) == Parse(true, fs.On(f))
  {
    FieldsThen(buf, pos, fs, f);
  }

  // ---- Acknowledgements ----------------------------------------------------

  /** An entry for `text`, unless it is empty. */
  function WithText(key: seq<byte>, text: seq<byte>, rest: Fields): Fields {
    if text == [] then rest else More(Entry(key, text), rest)
  }

  const LAST := More(Payload(ACK_PAYLOAD), End)

  function AckEntries(f: Frame): Fields {
    More(Entry(TYPE, ACK), WithText(MESSAGE_ID, f.messageId, WithText(TRACE_ID, f.traceId, LAST)))
  }

  function AckFields(f: Frame): Fields
    requires f.Valid()
  {
    More(Number(1, f.seqId), More(Number(2, 0),
      More(Number(3, FromInt32(f.service)), More(Number(4, FromInt32(f.verb)), AckEntries(f)))))
  }

  lemma SignKept(n: int)
    requires -0x8000_0000 <= n < 0x8000_0000
    ensures FromInt32(n) < U32 && ToInt32(FromInt32(n)) == n
  {
  }

  /** The entry of an identifier, if there is one: what it means and its size. */
  lemma TextMeans(key: seq<byte>, text: seq<byte>, rest: Fields, f: Frame)
    requires NulFree(key) && 1 <= |key| <= 10 && NulFree(text) && |text| <= 63 && rest.Valid()
    ensures WithText(key, text, rest).Valid()
    ensures WithText(key, text, rest).On(f) == rest.On(if text == [] then f else WithHeader(f, key, text))
  {
    MessageSize(key, text);
  }

  lemma TextSize(key: seq<byte>, text: seq<byte>, rest: Fields)
    requires |key| <= 10 && |text| <= 63
    ensures |WithText(key, text, rest).Octets()| <= |key| + |text| + 6 + |rest.Octets()|
  {
    MessageSize(key, text);
    VarintSizes(|HeaderMessage(key, text)|);
  }

  lemma MessageSize(key: seq<byte>, text: seq<byte>)
    requires |key| <= 10 && |text| <= 63
    ensures |HeaderMessage(key, text)| == |key| + |text| + 4
  {
    VarintSizes(|key|);
    VarintSizes(|text|);
  }

  lemma HeadersMean(f: Frame, text: seq<byte>)
    requires |text| <= 63
    ensures WithHeader(f, TYPE, text) == f.(kind := First(text, 31))
    ensures WithHeader(f, MESSAGE_ID, text) == f.(messageId := text)
    ensures WithHeader(f, TRACE_ID, text) == f.(traceId := text)
  {
  }

  lemma LastMeans(f: Frame)
    ensures LAST.On(f) == f.(payload := ACK_PAYLOAD) && LAST.Valid() && |LAST.Octets()| == 14
  {
    VarintSizes(|ACK_PAYLOAD|);
    assert End.On(f.(payload := ACK_PAYLOAD)) == f.(payload := ACK_PAYLOAD);
  }

  lemma KeysAreText()
    ensures NulFree(TYPE) && |TYPE| == 4 && NulFree(ACK) && |ACK| == 3
    ensures NulFree(MESSAGE_ID) && |MESSAGE_ID| == 10 && NulFree(TRACE_ID) && |TRACE_ID| == 8
  {
  }

  lemma AckEntriesMean(f: Frame, g: Frame)
    requires f.Valid() && g.messageId == [] && g.traceId == []
    ensures AckEntries(f).Valid()
    ensures AckEntries(f).On(g) ==
            g.(kind := ACK, messageId := f.messageId, traceId := f.traceId, payload := ACK_PAYLOAD)
  {
    var g1 := g.(kind := ACK);
    var g2 := g1.(messageId := f.messageId);
    var trace := WithText(TRACE_ID, f.traceId, LAST);
    var message := WithText(MESSAGE_ID, f.messageId, trace);
    KeysAreText();
    HeadersMean(g, ACK);
    HeadersMean(g1, f.messageId);
    HeadersMean(g2, f.traceId);
    LastMeans(g2.(traceId := f.traceId));
    TextMeans(TRACE_ID, f.traceId, LAST, g2);
    TextMeans(MESSAGE_ID, f.messageId, trace, g1);
    TextMeans(TYPE, ACK, message, g);
  }

  lemma AckEntriesSize(f: Frame)
    requires f.Valid()
    ensures |AckEntries(f).Octets()| <= 183
  {
    var trace := WithText(TRACE_ID, f.traceId, LAST);
    var message := WithText(MESSAGE_ID, f.messageId, trace);
    LastMeans(f);
    KeysAreText();
    TextSize(TRACE_ID, f.traceId, LAST);
    TextSize(MESSAGE_ID, f.messageId, trace);
    TextSize(TYPE, ACK, message);
  }

  lemma NumberMeans(fn: nat, v: nat, rest: Fields, f: Frame)
    ensures More(Number(fn, v), rest).On(f) == rest.On(Number(fn, v).On(f))
  {
  }

  lemma AckFieldsValid(f: Frame)
    requires f.Valid()
    ensures AckFields(f).Valid()
  {
    hide AckEntries, FromInt32, HeaderMessage;
    SignKept(f.service);
    SignKept(f.verb);
    AckEntriesMean(f, EMPTY);
    var l4 := More(Number(4, FromInt32(f.verb)), AckEntries(f));
    assert l4.Valid() && More(Number(3, FromInt32(f.service)), l4).Valid();
  }

  lemma AckMeans(f: Frame)
    requires f.Valid()
    ensures AckFields(f).On(EMPTY) ==
            Frame(f.seqId, f.service, f.verb, ACK, f.messageId, f.traceId, [], [], ACK_PAYLOAD)
  {
    hide AckEntries, FromInt32, ToInt32;
    SignKept(f.service);
    SignKept(f.verb);
    var l5 := AckEntries(f);
    var l4 := More(Number(4, FromInt32(f.verb)), l5);
    var l3 := More(Number(3, FromInt32(f.service)), l4);
    var g1 := EMPTY.(seqId := f.seqId);
    var g3 := g1.(service := f.service);
    AckEntriesMean(f, g3.(verb := f.verb));
    NumberMeans(4, FromInt32(f.verb), l5, g3);
    NumberMeans(3, FromInt32(f.service), l4, g1);
    NumberMeans(2, 0, l3, g1);
    NumberMeans(1, f.seqId, More(Number(2, 0), l3), EMPTY);
  }

  /** No acknowledgement is longer than 208 octets. */
  lemma AckSize(f: Frame)
    requires f.Valid()
    ensures |AckFields(f).Octets()| <= 208
  {
    SignKept(f.service);
    SignKept(f.verb);
    AckEntriesSize(f);
    VarintSizes(f.seqId);
    VarintSizes(FromInt32(f.service));
    VarintSizes(FromInt32(f.verb));
    var l4 := More(Number(4, FromInt32(f.verb)), AckEntries(f));
    var l3 := More(Number(3, FromInt32(f.service)), l4);
    var l2 := More(Number(2, 0), l3);
    assert |l4.Octets()| <= 183 + 6;
    assert |l3.Octets()| <= 183 + 12;
    assert |l2.Octets()| <= 183 + 14;
  }

  /** An acknowledgement parses to the sequence number, service and method of its
      request, negative ones included, the type "ack", both identifiers and the
      fixed payload. */
  lemma AckRoundTrip(f: Frame)
    requires f.Valid()
    ensures ParseFrame(AckFields(f).Octets(), 0, EMPTY) ==
            Parse(true, Frame(f.seqId, f.service, f.verb, ACK, f.messageId, f.traceId, [], [], ACK_PAYLOAD))
  {
    AckFieldsValid(f);
    AckMeans(f);
    var buf := AckFields(f).Octets();
    assert buf[0..|buf|] == buf;
    FrameRoundTrip(buf, 0, AckFields(f), EMPTY);
  }
}
