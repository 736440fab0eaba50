/** What the octets of a frame say, read off without the parser: where a varint
    ends and what it is worth, and for each thing the parser keeps the last field
    that sets it. */
module ProtoMeaning {
  import opened Bytes
  import opened ProtoSpec

  // ---- Varints -------------------------------------------------------------

  /** Seven bits to the octet, least significant first. */
  function Groups(s: seq<byte>): nat {
    if s == [] then 0 else s[0] % 128 + 128 * Groups(s[1..])
  }

  /** Reading goes on to the first octet below 128, or to the end, and gives the
      number that the seven-bit groups make, without the bits beyond the
      sixty-fourth: on any octets, overlong or cut short. */
  lemma {:induction false} VarintIsGroups(buf: seq<byte>, pos: nat)
    requires pos <= |buf|
    ensures var r := ReadVarint(buf, pos);
            && pos <= r.next <= |buf| && (forall i :: pos <= i < r.next - 1 ==> buf[i] >= 128)
            && (pos < |buf| ==> r.next == |buf| || buf[r.next - 1] < 128)
            && r.value == Groups(buf[pos..r.next]) % 0x1_0000_0000_0000_0000
    decreases |buf| - pos
  {
    if pos < |buf| {
      var r := ReadVarint(buf, pos);
      var all := buf[pos..r.next];
      if buf[pos] >= 128 {
        VarintIsGroups(buf, pos + 1);
        assert all[1..] == buf[pos + 1..r.next];
        ReduceGroups(buf[pos] % 128, Groups(all[1..]));
      } else {
        assert all[1..] == [];
      }
    }
  }

  lemma ReduceGroups(a: nat, g: nat)
    ensures (a + 128 * (g % 0x1_0000_0000_0000_0000)) % 0x1_0000_0000_0000_0000 ==
            (a + 128 * g) % 0x1_0000_0000_0000_0000
  {
  }

  /** The octets of a varint: all but the last announce another one, none is
      wasted, and their groups make the number. */
  lemma {:induction false} VarintShape(v: nat)
    ensures var s := Varint(v);
            && Groups(s) == v && s[|s| - 1] < 128 && (|s| > 1 ==> s[|s| - 1] > 0)
            && forall i :: 0 <= i < |s| - 1 ==> s[i] >= 128
  {
    var s := Varint(v);
    if v >= 128 {
      var rest := Varint(v / 128);
      VarintShape(v / 128);
      GroupOf(v);
      assert s == [128 + v % 128] + rest && s[1..] == rest;
      assert forall i :: 1 <= i < |s| ==> s[i] == rest[i - 1];
    } else {
      assert s[1..] == [];
    }
  }

  lemma GroupOf(v: nat)
    ensures (128 + v % 128) % 128 == v % 128 && v % 128 + 128 * (v / 128) == v
  {
  }

  /** The signed 32-bit number with the same low bits. */
  lemma Int32Is(v: nat)
    ensures -0x8000_0000 <= ToInt32(v) <= 0x7fff_ffff && (v - ToInt32(v)) % 0x1_0000_0000 == 0
  {
  }

  // ---- Fields --------------------------------------------------------------

  datatype Option<T> = None | Some(value: T)

  /** `t` is the C string that a buffer for `n` octets and a NUL holds of `s`. */
  predicate IsText(s: seq<byte>, n: nat, t: seq<byte>) {
    |t| <= n && t <= s && NulFree(t) && (|t| == n || |t| == |s| || s[|t|] == 0)
  }

  lemma TextIsOne(s: seq<byte>, n: nat, t: seq<byte>, u: seq<byte>)
    requires IsText(s, n, t) && IsText(s, n, u)
    ensures t == u
  {
    assert forall i :: 0 <= i < |t| ==> t[i] == s[i];
    assert forall i :: 0 <= i < |u| ==> u[i] == s[i];
    assert |t| == |u|;
  }

  lemma {:induction false} AsTextIs(s: seq<byte>)
    ensures var t := AsText(s); t <= s && NulFree(t) && (|t| == |s| || s[|t|] == 0)
  {
    if s != [] && s[0] != 0 {
      AsTextIs(s[1..]);
      var t := AsText(s[1..]);
      assert s == [s[0]] + s[1..];
      assert t <= s[1..] ==> [s[0]] + t <= s;
    }
  }

  lemma CutIsText(s: seq<byte>, n: nat)
    ensures IsText(s, n, AsText(First(s, n)))
  {
    AsTextIs(First(s, n));
    assert First(s, n) <= s;
  }

  lemma CutTwice(s: seq<byte>, n: nat, m: nat)
    requires m <= n
    ensures IsText(s, m, First(AsText(First(s, n)), m))
  {
    CutIsText(s, n);
  }

  /** What comes later counts. */
  function Later<T>(first: Option<T>, second: Option<T>): Option<T> {
    if second.Some? then second else first
  }

  /** The value of the field, if it is an entry under `key`. */
  function TextUnder(field: Field, key: seq<byte>): Option<seq<byte>> {
    if field.Entry? && IsText(field.key, 31, key) then Some(field.text) else None
  }

  function NumberUnder(field: Field, fn: nat): Option<nat> {
    if field.Number? && field.fn == fn then Some(field.value) else None
  }

  function DataOf(field: Field): Option<seq<byte>> {
    if field.Payload? then Some(field.data) else None
  }

  /** The value of the last entry under `key`. */
  function LastText(fs: Fields, key: seq<byte>): Option<seq<byte>> {
    if fs.End? then None else Later(TextUnder(fs.field, key), LastText(fs.rest, key))
  }

  /** The value of the last number with field number `fn`. */
  function LastNumber(fs: Fields, fn: nat): Option<nat> {
    if fs.End? then None else Later(NumberUnder(fs.field, fn), LastNumber(fs.rest, fn))
  }

  function LastPayload(fs: Fields): Option<seq<byte>> {
    if fs.End? then None else Later(DataOf(fs.field), LastPayload(fs.rest))
  }

  /** `now` is what the last entry said, or as it was. */
  predicate Says(last: Option<seq<byte>>, n: nat, was: seq<byte>, now: seq<byte>) {
    match last
    case None => now == was
    case Some(text) => IsText(text, n, now)
  }

  predicate Signed(last: Option<nat>, was: int, now: int) {
    match last
    case None => now == was
    case Some(v) => -0x8000_0000 <= now <= 0x7fff_ffff && (v - now) % 0x1_0000_0000 == 0
  }

  predicate Plain<T(==)>(last: Option<T>, was: T, now: T) {
    match last
    case None => now == was
    case Some(v) => now == v
  }

  /** What one field, or many, say under the keys "type", "message_id",
      "trace_id", "sum" and "seq", as the numbers 1, 3 and 4, and as payload. */
  datatype Said = Said(kind: Option<seq<byte>>, messageId: Option<seq<byte>>, traceId: Option<seq<byte>>,
                       sum: Option<seq<byte>>, index: Option<seq<byte>>,
                       seqId: Option<nat>, service: Option<nat>, verb: Option<nat>, payload: Option<seq<byte>>)
  {
    predicate Texts(was: Frame, now: Frame) {
      && Says(kind, 31, was.kind, now.kind) && Says(messageId, 63, was.messageId, now.messageId)
      && Says(traceId, 63, was.traceId, now.traceId)
      && Says(sum, 127, was.sum, now.sum) && Says(index, 127, was.index, now.index)
    }

    predicate Values(was: Frame, now: Frame) {
      && Plain(seqId, was.seqId, now.seqId) && Plain(payload, was.payload, now.payload)
      && Signed(service, was.service, now.service) && Signed(verb, was.verb, now.verb)
    }

    /** `now` is `was` but for what was said. */
    predicate On(was: Frame, now: Frame) { Texts(was, now) && Values(was, now) }

    function Then(later: Said): Said {
      Said(Later(kind, later.kind), Later(messageId, later.messageId), Later(traceId, later.traceId),
           Later(sum, later.sum), Later(index, later.index),
           Later(seqId, later.seqId), Later(service, later.service), Later(verb, later.verb),
           Later(payload, later.payload))
    }
  }

  function SaidBy(field: Field): Said {
    Said(TextUnder(field, [116, 121, 112, 101]),
         TextUnder(field, [109, 101, 115, 115, 97, 103, 101, 95, 105, 100]),
         TextUnder(field, [116, 114, 97, 99, 101, 95, 105, 100]),
         TextUnder(field, [115, 117, 109]), TextUnder(field, [115, 101, 113]),
         NumberUnder(field, 1), NumberUnder(field, 3), NumberUnder(field, 4), DataOf(field))
  }

  function SaidIn(fs: Fields): Said {
    Said(LastText(fs, [116, 121, 112, 101]),
         LastText(fs, [109, 101, 115, 115, 97, 103, 101, 95, 105, 100]),
         LastText(fs, [116, 114, 97, 99, 101, 95, 105, 100]),
         LastText(fs, [115, 117, 109]), LastText(fs, [115, 101, 113]),
         LastNumber(fs, 1), LastNumber(fs, 3), LastNumber(fs, 4), LastPayload(fs))
  }

  lemma NameIs(key: seq<byte>, k: seq<byte>)
    ensures IsText(key, 31, k) <==> k == AsText(First(key, 31))
  {
    var name := AsText(First(key, 31));
    CutIsText(key, 31);
    if IsText(key, 31, k) {
      TextIsOne(key, 31, k, name);
    }
  }

  lemma EntrySays(key: seq<byte>, text: seq<byte>, f: Frame)
    ensures SaidBy(Entry(key, text)).On(f, Entry(key, text).On(f))
  {
    hide IsText, AsText, First;
    forall k ensures IsText(key, 31, k) <==> k == AsText(First(key, 31)) {
      NameIs(key, k);
    }
    CutIsText(text, 127);
    CutTwice(text, 127, 31);
    CutTwice(text, 127, 63);
    HeaderSays(key, text, AsText(First(key, 31)), AsText(First(text, 127)), f);
  }

  lemma HeaderSays(key: seq<byte>, text: seq<byte>, name: seq<byte>, value: seq<byte>, f: Frame)
    requires forall k :: IsText(key, 31, k) <==> k == name
    requires IsText(text, 127, value) && IsText(text, 31, First(value, 31)) && IsText(text, 63, First(value, 63))
    ensures SaidBy(Entry(key, text)).On(f, WithHeader(f, name, value))
  {
    hide IsText, First;
    KeysDiffer();
  }

  lemma KeysDiffer()
    ensures |TYPE| == 4 && |MESSAGE_ID| == 10 && |TRACE_ID| == 8 && |SUM| == 3 && |SEQ| == 3 && SUM[1] != SEQ[1]
  {
  }

  lemma {:induction false} FieldSays(field: Field, f: Frame)
    ensures SaidBy(field).On(f, field.On(f))
  {
    if field.Entry? {
      EntrySays(field.key, field.text, f);
    }
  }

  lemma SaysThen(a: Said, b: Said, f: Frame, g: Frame, h: Frame)
    requires a.On(f, g) && b.On(g, h)
    ensures a.Then(b).On(f, h)
  {
    hide IsText;
  }

  lemma {:induction false} FieldsSay(fs: Fields, f: Frame)
    ensures SaidIn(fs).On(f, fs.On(f))
  {
    if fs.More? {
      var g := fs.field.On(f);
      FieldSays(fs.field, f);
      FieldsSay(fs.rest, g);
      hide Said.On, Field.On;
      SaysThen(SaidBy(fs.field), SaidIn(fs.rest), f, g, fs.rest.On(g));
      assert SaidIn(fs) == SaidBy(fs.field).Then(SaidIn(fs.rest));
    }
  }

  /** Parsing the octets of any fields, in any order and with any repetition: each
      text is that of the last entry under its own key, cut to the size kept, each
      number the last one with its own field number, the payload the last payload;
      what no field sets is empty or 0, and nothing else leaves a trace. */
  lemma {:induction false} FrameSays(fs: Fields)
    requires fs.Valid()
    ensures var parse := ParseFrame(fs.Octets(), 0, EMPTY);
            parse.ok && SaidIn(fs).On(Frame(0, 0, 0, [], [], [], [], [], []), parse.frame)
  {
    hide SaidIn, Said.On;
    var buf := fs.Octets();
    assert buf[0..|buf|] == buf;
    FrameRoundTrip(buf, 0, fs, EMPTY);
    FieldsSay(fs, EMPTY);
  }

  // ---- Header messages -----------------------------------------------------

  /** The data of the last part with number `fn`. */
  function LastPart(parts: Parts, fn: nat): Option<seq<byte>> {
    if parts.NoParts? then None
    else Later(if parts.fn == fn then Some(parts.data) else None, LastPart(parts.rest, fn))
  }

  /** At most `n` octets of what the last part said, or what was there before. */
  predicate Kept(last: Option<seq<byte>>, n: nat, was: seq<byte>, now: seq<byte>) {
    match last
    case None => now == was
    case Some(data) => now <= data && |now| == Min(n, |data|)
  }

  lemma {:induction false} PartsSay(parts: Parts, h: Header)
    ensures var r := parts.On(h);
            Kept(LastPart(parts, 1), 31, h.key, r.key) && Kept(LastPart(parts, 2), 127, h.text, r.text)
  {
    if parts.Part? {
      PartsSay(parts.rest, WithPart(h, parts.fn, parts.data));
    }
  }

  /** A header message of any parts, in any order and with any repetition: key and
      value are the last parts 1 and 2, cut to 31 and 127 octets. */
  lemma {:induction false} HeaderSaysLast(parts: Parts)
    requires parts.Valid()
    ensures var h := ScanHeader(parts.Octets(), 0, Header([], []));
            Kept(LastPart(parts, 1), 31, [], h.key) && Kept(LastPart(parts, 2), 127, [], h.text)
  {
    var buf := parts.Octets();
    assert buf[0..|buf|] == buf;
    ScanRoundTrip(buf, 0, parts, Header([], []));
    PartsSay(parts, Header([], []));
  }

  /** A part whose length is negative or reaches beyond the message ends the
      scan; what was read before it stays. */
  lemma {:induction false} OverrunEndsScan(parts: Parts, fn: nat, size: nat, data: seq<byte>)
    requires parts.Valid() && 1 <= fn < 0x1000_0000 && size < 0x1_0000_0000_0000_0000
    requires size % 0x1_0000_0000 >= 0x8000_0000 || size % 0x1_0000_0000 > |data|
    ensures ScanHeader(parts.Octets() + (Varint(8 * fn + 2) + Varint(size) + data), 0, Header([], [])) ==
            parts.On(Header([], []))
  {
    hide ReadVarint, Varint, ToInt32, Parts.Octets, Parts.On;
    var last := Varint(8 * fn + 2) + Varint(size) + data;
    var buf, pos := parts.Octets() + last, |parts.Octets()|;
    assert buf[0..pos] == parts.Octets();
    PartsThen(buf, 0, parts, Header([], []));
    assert buf[pos..pos + |last|] == last;
    OverrunAt(buf, pos, fn, size, data);
  }

  // ---- Skipped fields ------------------------------------------------------

  /** How many octets behind its tag a field takes that nobody asked for: those of
      the number, eight, four, a length with as many octets as it says, if they are
      there, or none. */
  function Skipped(buf: seq<byte>, i: nat, wire: nat): nat
    requires i <= |buf|
  {
    var r := ReadVarint(buf, i);
    var size := r.value % 0x1_0000_0000;
    match wire
    case 0 => r.next - i
    case 1 => 8
    case 2 => if size < 0x8000_0000 && r.next + size <= |buf| then r.next + size - i else r.next - i
    case 5 => 4
    case _ => 0
  }

  /** In a frame, any field but 1 to 4 and the length-delimited 5 and 8. */
  lemma {:induction false} FrameSkips(buf: seq<byte>, pos: nat, fn: nat, wire: nat, f: Frame)
    requires 5 <= fn < 0x1000_0000 && wire < 8 && !((fn == 5 || fn == 8) && wire == 2)
    requires At(buf, pos, Varint(8 * fn + wire))
    ensures pos < |buf| && pos + |Varint(8 * fn + wire)| <= |buf|
    ensures var i := pos + |Varint(8 * fn + wire)|;
            ParseField(buf, pos, f) == Next(i + Skipped(buf, i, wire), f)
  {
    hide ReadVarint, Varint;
    TagAt(buf, pos, fn, wire);
    Int32Is(ReadVarint(buf, pos + |Varint(8 * fn + wire)|).value);
  }

  /** In a header message, any part that is not length-delimited. */
  lemma HeaderSkips(buf: seq<byte>, pos: nat, fn: nat, wire: nat, h: Header)
    requires 1 <= fn < 0x1000_0000 && wire < 8 && wire != 2
    requires At(buf, pos, Varint(8 * fn + wire))
    ensures pos < |buf| && pos + |Varint(8 * fn + wire)| <= |buf|
    ensures var i := pos + |Varint(8 * fn + wire)|;
            ScanPart(buf, pos, h) == Scanned(i + Skipped(buf, i, wire), h)
  {
    hide ReadVarint, Varint;
    TagAt(buf, pos, fn, wire);
  }

  /** Numbers 1 to 4 are read as varints whatever wire type their tag says. */
  lemma NumbersIgnoreWire(buf: seq<byte>, pos: nat, fn: nat, wire: nat, f: Frame)
    requires 1 <= fn <= 4 && wire < 8 && At(buf, pos, Varint(8 * fn + wire))
    ensures pos < |buf| && pos + |Varint(8 * fn + wire)| <= |buf|
    ensures
      var r := ReadVarint(buf, pos + |Varint(8 * fn + wire)|);
      exists g: Frame ::
        && ParseField(buf, pos, f) == Next(r.next, g)
        && (if fn == 1 then g == f.(seqId := r.value)
            else if fn == 3 then g == f.(service := g.service) && Signed(Some(r.value), 0, g.service)
            else if fn == 4 then g == f.(verb := g.verb) && Signed(Some(r.value), 0, g.verb)
            else g == f)
  {
    hide ReadVarint, Varint;
    TagAt(buf, pos, fn, wire);
    Int32Is(ReadVarint(buf, pos + |Varint(8 * fn + wire)|).value);
  }

  // ---- Refused frames ------------------------------------------------------

  /** A header or payload whose length is negative, as a 32-bit number, or reaches
      beyond the end of the buffer ends the parse with a refusal, and the frame is
      what the fields before it said. */
  lemma {:induction false} OverrunRefused(fs: Fields, fn: nat, size: nat, data: seq<byte>)
    requires fs.Valid() && (fn == 5 || fn == 8) && size < 0x1_0000_0000_0000_0000
    requires size % 0x1_0000_0000 >= 0x8000_0000 || size % 0x1_0000_0000 > |data|
    ensures ParseFrame(fs.Octets() + (Varint(8 * fn + 2) + Varint(size) + data), 0, EMPTY) ==
            Parse(false, fs.On(EMPTY))
  {
    hide ReadVarint, Varint, ToInt32, Fields.Octets, Fields.On;
    var last := Varint(8 * fn + 2) + Varint(size) + data;
    var buf, pos := fs.Octets() + last, |fs.Octets()|;
    assert buf[0..pos] == fs.Octets();
    FieldsThen(buf, 0, fs, EMPTY);
    assert buf[pos..pos + |last|] == last;
    OverrunIsMalformed(buf, pos, fn, size, data, fs.On(EMPTY));
  }

  lemma OverrunIsMalformed(buf: seq<byte>, pos: nat, fn: nat, size: nat, data: seq<byte>, f: Frame)
    requires (fn == 5 || fn == 8) && size < 0x1_0000_0000_0000_0000
    requires size % 0x1_0000_0000 >= 0x8000_0000 || size % 0x1_0000_0000 > |data|
    requires At(buf, pos, Varint(8 * fn + 2) + Varint(size) + data)
    requires pos + |Varint(8 * fn + 2) + Varint(size) + data| == |buf|
    ensures pos < |buf| && ParseField(buf, pos, f) == Malformed
  {
    hide Varint, ReadVarint, ToInt32;
    OverrunAt(buf, pos, fn, size, data);
  }

  lemma OverrunAt(buf: seq<byte>, pos: nat, fn: nat, size: nat, data: seq<byte>)
    requires fn < 0x1000_0000 && size < 0x1_0000_0000_0000_0000
    requires size % 0x1_0000_0000 >= 0x8000_0000 || size % 0x1_0000_0000 > |data|
    requires At(buf, pos, Varint(8 * fn + 2) + Varint(size) + data)
    requires pos + |Varint(8 * fn + 2) + Varint(size) + data| == |buf|
    ensures pos < |buf|
    ensures
      var tag := ReadVarint(buf, pos);
      var r := ReadVarint(buf, tag.next);
      && ToInt32(tag.value / 8) == fn && tag.value % 8 == 2
      && (ToInt32(r.value) < 0 || r.next + ToInt32(r.value) > |buf|)
  {
    hide Varint, ReadVarint;
    var tag, length := Varint(8 * fn + 2), Varint(size);
    SplitAt(buf, pos, tag + length, data);
    SplitAt(buf, pos, tag, length);
    TagAt(buf, pos, fn, 2);
    VarintRoundTrip(buf, pos + |tag|, size);
    Int32Is(size);
  }

  // ---- The acknowledgement -------------------------------------------------

  /** An optional entry with a key of `n` octets. */
  function EntryOctets(key: seq<byte>, text: seq<byte>): seq<int> {
    if text == [] then []
    else [42, |key| + |text| + 4] + (([10, |key|] + key) + ([18, |text|] + text))
  }

  /** Octet by octet: the sequence number, a log number of 0, service and method as
      unsigned 32-bit numbers, "type" with "ack", the identifiers if there are any,
      and {"code":200}. */
  lemma AckLayout(f: Frame)
    requires f.Valid()
    ensures AckFields(f).Octets() ==
            ([8] + Varint(f.seqId)) + ([16, 0] +
            (([24] + Varint(f.service % 0x1_0000_0000)) + (([32] + Varint(f.verb % 0x1_0000_0000)) +
            AckEntryOctets(f.messageId, f.traceId))))
  {
    hide Varint, NumberField, AckEntries, AckEntryOctets;
    AckEntriesLayout(f);
    var service, verb := FromInt32(f.service), FromInt32(f.verb);
    NumberOctets(1, f.seqId);
    NumberOctets(2, 0);
    NumberOctets(3, service);
    NumberOctets(4, verb);
    var l4 := More(Number(4, verb), AckEntries(f));
    var l3 := More(Number(3, service), l4);
    var l2 := More(Number(2, 0), l3);
    assert l4.Octets() == ([32] + Varint(verb)) + AckEntryOctets(f.messageId, f.traceId);
    assert l3.Octets() == ([24] + Varint(service)) + l4.Octets();
    assert l2.Octets() == [16, 0] + l3.Octets();
  }

  function AckEntryOctets(messageId: seq<byte>, traceId: seq<byte>): seq<int> {
    [42, 11, 10, 4, 116, 121, 112, 101, 18, 3, 97, 99, 107] +
    (EntryOctets([109, 101, 115, 115, 97, 103, 101, 95, 105, 100], messageId) +
    (EntryOctets([116, 114, 97, 99, 101, 95, 105, 100], traceId) +
    [66, 12, 123, 34, 99, 111, 100, 101, 34, 58, 50, 48, 48, 125]))
  }

  lemma AckEntriesLayout(f: Frame)
    requires f.Valid()
    ensures AckEntries(f).Octets() == AckEntryOctets(f.messageId, f.traceId)
  {
    hide EntryOctets, WithText, Field.Octets;
    var trace := WithText(TRACE_ID, f.traceId, LAST);
    var message := WithText(MESSAGE_ID, f.messageId, trace);
    KeysAreText();
    TextOctets(TRACE_ID, f.traceId, LAST);
    TextOctets(MESSAGE_ID, f.messageId, trace);
    assert AckEntries(f).Octets() == Entry(TYPE, ACK).Octets() + message.Octets();
    TypeOctets();
    LastOctets();
  }

  lemma NumberOctets(fn: nat, v: nat)
    requires fn < 16
    ensures NumberField(fn, v) == [8 * fn] + Varint(v) && Varint(0) == [0]
  {
  }

  lemma TypeOctets()
    ensures Entry(TYPE, ACK).Octets() == [42, 11, 10, 4, 116, 121, 112, 101, 18, 3, 97, 99, 107]
  {
    hide Field.Octets;
    SmallEntry(TYPE, ACK);
    var key, text: seq<int> := [10, 4] + TYPE, [18, 3] + ACK;
    assert key == [10, 4, 116, 121, 112, 101] && text == [18, 3, 97, 99, 107];
  }

  lemma LastOctets()
    ensures LAST.Octets() == [66, 12, 123, 34, 99, 111, 100, 101, 34, 58, 50, 48, 48, 125]
  {
    assert LengthField(8, ACK_PAYLOAD) == [66, 12, 123, 34, 99, 111, 100, 101, 34, 58, 50, 48, 48, 125];
    assert LAST.Octets() == LengthField(8, ACK_PAYLOAD) + End.Octets();
  }

  lemma TextOctets(key: seq<byte>, text: seq<byte>, rest: Fields)
    requires |key| <= 10 && |text| <= 63
    ensures WithText(key, text, rest).Octets() == EntryOctets(key, text) + rest.Octets()
  {
    if text != [] {
      SmallEntry(key, text);
    }
  }

  lemma SmallEntry(key: seq<byte>, text: seq<byte>)
    requires |key| <= 10 && |text| <= 63
    ensures Entry(key, text).Octets() == [42, |key| + |text| + 4] + (([10, |key|] + key) + ([18, |text|] + text))
  {
    SmallField(1, key);
    SmallField(2, text);
    SmallField(5, HeaderMessage(key, text));
  }

  lemma SmallField(fn: nat, data: seq<byte>)
    requires fn < 15 && |data| < 128
    ensures LengthField(fn, data) == [8 * fn + 2, |data|] + data
  {
    assert Varint(8 * fn + 2) == [8 * fn + 2] && Varint(|data|) == [|data|];
  }
}
