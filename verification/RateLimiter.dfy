/** The per-chat limit on messages from other bots: a small table of chats with
    the times of their last accepted messages. */
module RateLimiter {
  import opened Bytes

  const SLOTS := 8
  const MAX_RECENT := 2
  const WINDOW := 120
  const ID_LENGTH := 63
  const UINT32_MAX := 0xffff_ffff

  /** A chat identifier, as text without NULs. */
  type Text = seq<byte>

  type time = t: int | 0 <= t < 0x1_0000_0000

  datatype Slot = Slot(chat: Text, first: time, second: time, idx: nat)
  {
    function Oldest(): time { if second < first then second else first }

    function Recent(now: time): nat {
      (if first > 0 && Elapsed(now, first) < WINDOW then 1 else 0) +
      (if second > 0 && Elapsed(now, second) < WINDOW then 1 else 0)
    }

    function Stamp(now: time): Slot {
      if idx == 0 then Slot(chat, now, second, 1) else Slot(chat, first, now, 0)
    }
  }

  const FREE := Slot([], 0, 0, 0)

  /** Unsigned 32-bit subtraction. */
  function Elapsed(now: time, then_: time): time {
    if now >= then_ then now - then_ else 0x1_0000_0000 - (then_ - now)
  }

  // ---- One decision --------------------------------------------------------

  /** The first slot of the chat from slot `i` on. */
  function Find(slots: seq<Slot>, id: Text, i: nat): (k: nat)
    requires i <= |slots|
    ensures i <= k <= |slots| && (k < |slots| ==> slots[k].chat == id != [])
    ensures k == |slots| ==> forall j :: i <= j < |slots| ==> slots[j].chat != id || id == []
    decreases |slots| - i
  {
    if i == |slots| || (slots[i].chat != [] && slots[i].chat == id) then i else Find(slots, id, i + 1)
  }

  /** The first free slot from slot `i` on, or else the first of those whose older
      stamp is least, if that is less than `oldest`. */
  function Victim(slots: seq<Slot>, i: nat, oldest: time, best: nat): (k: nat)
    requires i <= |slots| && best < |slots|
    ensures k < |slots|
    ensures slots[k].chat == [] || forall j :: i <= j < |slots| ==> slots[j].chat != []
    ensures (forall j :: i <= j < |slots| ==> slots[j].chat != []) ==>
              || (k == best && forall j :: i <= j < |slots| ==> slots[j].Oldest() >= oldest)
              || (k >= i && slots[k].Oldest() < oldest
                  && forall j :: i <= j < |slots| ==> slots[k].Oldest() <= slots[j].Oldest())
    decreases |slots| - i
  {
    if i == |slots| then best
    else if slots[i].chat == [] then i
    else if slots[i].Oldest() < oldest then Victim(slots, i + 1, slots[i].Oldest(), i)
    else Victim(slots, i + 1, oldest, best)
  }

  /** In a full table the victim's older stamp is the least of all. */
  lemma VictimIsLeast(slots: seq<Slot>, j: nat)
    requires |slots| == SLOTS && j < SLOTS && forall i :: 0 <= i < SLOTS ==> slots[i].chat != []
    ensures var v := slots[Victim(slots, 0, UINT32_MAX, 0)];
            Min(v.first, v.second) <= Min(slots[j].first, slots[j].second)
  {
    var k := Victim(slots, 0, UINT32_MAX, 0);
    assert k == 0 ==> slots[0].Oldest() <= slots[j].Oldest();
  }

  /** A stamp that was never set counts as time 0, so a chat with one accepted
      message goes before any chat with two, however recent its message is. */
  lemma OneStampGoesFirst(slots: seq<Slot>, j: nat)
    requires |slots| == SLOTS && j < SLOTS && forall i :: 0 <= i < SLOTS ==> slots[i].chat != []
    requires slots[j].first == 0 || slots[j].second == 0
    ensures var v := slots[Victim(slots, 0, UINT32_MAX, 0)]; v.first == 0 || v.second == 0
  {
    VictimIsLeast(slots, j);
  }

  /** The table with a slot for the chat, and that slot. */
  function WithSlot(slots: seq<Slot>, id: Text): (r: (seq<Slot>, nat))
    requires |slots| == SLOTS
    ensures |r.0| == SLOTS && r.1 < SLOTS
  {
    var k := Find(slots, id, 0);
    if k < SLOTS then (slots, k)
    else
      var v := Victim(slots, 0, UINT32_MAX, 0);
      (slots[v := Slot(id[..Min(|id|, ID_LENGTH)], 0, 0, 0)], v)
  }

  predicate Limited(slots: seq<Slot>, id: Text, now: time)
    requires |slots| == SLOTS
  {
    var (t, k) := WithSlot(slots, id);
    t[k].Recent(now) >= MAX_RECENT
  }

  function Decide(slots: seq<Slot>, id: Text, now: time): (r: seq<Slot>)
    requires |slots| == SLOTS
    ensures |r| == SLOTS
  {
    var (t, k) := WithSlot(slots, id);
    if Limited(slots, id, now) then t else t[k := t[k].Stamp(now)]
  }

  class Limiter {
    const slots: array<Slot>

    constructor ()
      ensures fresh(slots) && slots.Length == SLOTS && forall i :: 0 <= i < SLOTS ==> slots[i] == FREE
    {
      slots := new Slot[SLOTS](_ => FREE);
    }

    /** Searches the table, makes room if the chat is new, counts the recent
        messages and notes the time of an accepted one. */
    method BotRateLimited(id: Text, now: time) returns (limited: bool)
      requires slots.Length == SLOTS
      modifies slots
      ensures limited == Limited(old(slots[..]), id, now)
      ensures slots[..] == Decide(old(slots[..]), id, now)
    {
      ghost var before := slots[..];
      var k := 0;
      while k < SLOTS && !(slots[k].chat != [] && slots[k].chat == id)
        invariant 0 <= k <= SLOTS && Find(before, id, 0) == Find(before, id, k)
      {
        k := k + 1;
      }
      if k == SLOTS {
        k := PickVictim();
        slots[k] := Slot(id[..Min(|id|, ID_LENGTH)], 0, 0, 0);
      }
      assert (slots[..], k) == WithSlot(before, id);
      var recent := slots[k].Recent(now);
      if recent >= MAX_RECENT {
        return true;
      }
      slots[k] := slots[k].Stamp(now);
      limited := false;
    }

    /** The first free slot, or else one whose older stamp is least. */
    method PickVictim() returns (k: nat)
      requires slots.Length == SLOTS
      ensures k == Victim(slots[..], 0, UINT32_MAX, 0) && k < SLOTS
      ensures slots[k].chat == [] ||
                forall j :: 0 <= j < SLOTS ==> slots[j].chat != [] && slots[k].Oldest() <= slots[j].Oldest()
    {
      var oldest: time := UINT32_MAX;
      k := 0;
      var i := 0;
      while i < SLOTS
        invariant 0 <= i <= SLOTS && k < SLOTS
        invariant Victim(slots[..], 0, UINT32_MAX, 0) == Victim(slots[..], i, oldest, k)
      {
        if slots[i].chat == [] {
          return i;
        }
        var ts := slots[i].Oldest();
        if ts < oldest {
          oldest, k := ts, i;
        }
        i := i + 1;
      }
    }
  }

  // ---- Runs ----------------------------------------------------------------

  datatype History = Start | Then(before: History, id: Text, now: time)

  function Table(h: History): (r: seq<Slot>)
    ensures |r| == SLOTS
  {
    match h
    case Start => [FREE, FREE, FREE, FREE, FREE, FREE, FREE, FREE]
    case Then(before, id, now) => Decide(Table(before), id, now)
  }

  /** When messages of chat `c` were accepted. */
  function Accepted(h: History, c: Text): seq<time> {
    match h
    case Start => []
    case Then(before, id, now) =>
      if id == c && !Limited(Table(before), id, now) then Accepted(before, c) + [now] else Accepted(before, c)
  }

  /** How many messages of chat `c` had been accepted when it last got its slot. */
  function Admission(h: History, c: Text): (n: nat)
    ensures n <= |Accepted(h, c)|
  {
    match h
    case Start => 0
    case Then(before, id, now) =>
      if id == c && Find(Table(before), c, 0) == SLOTS then |Accepted(before, c)| else Admission(before, c)
  }

  /** When messages of chat `c` were accepted since it last got its slot; for a
      chat without a slot, whose next message would get one, that is never. */
  function SinceAdmission(h: History, c: Text): seq<time> {
    if Find(Table(h), c, 0) == SLOTS then [] else Accepted(h, c)[Admission(h, c)..]
  }

  function Clock(h: History): time {
    if h.Start? then 0 else h.now
  }

  predicate IsId(id: Text) { id != [] && |id| <= 63 }

  /** The clock is positive and never goes back. */
  ghost predicate Ticking(h: History) {
    h.Then? ==> Ticking(h.before) && 0 < h.now && Clock(h.before) <= h.now && IsId(h.id)
  }

  ghost predicate Among(h: History, ids: set<Text>) {
    h.Then? ==> Among(h.before, ids) && h.id in ids
  }

  /** The slot holds the last two times. */
  ghost predicate Remembers(s: Slot, times: seq<time>) {
    var (last, previous) := if s.idx == 0 then (s.second, s.first) else (s.first, s.second);
    && s.idx < 2
    && last == (if |times| >= 1 then times[|times| - 1] else 0)
    && previous == (if |times| >= 2 then times[|times| - 2] else 0)
  }

  ghost predicate Unique(slots: seq<Slot>) {
    forall i, j :: 0 <= i < j < |slots| && slots[i].chat != [] ==> slots[i].chat != slots[j].chat
  }

  /** Every slot holds the last two times since its chat got it. */
  ghost predicate Inv(h: History) {
    var slots := Table(h);
    && Unique(slots)
    && forall i :: 0 <= i < SLOTS && slots[i].chat != [] ==>
         Remembers(slots[i], Accepted(h, slots[i].chat)[Admission(h, slots[i].chat)..])
  }

  /** Times are positive, in order, and not after the clock. */
  ghost predicate Ordered(times: seq<time>, clock: time) {
    && (forall i :: 0 <= i < |times| ==> 0 < times[i] <= clock)
    && (forall i, j :: 0 <= i <= j < |times| ==> times[i] <= times[j])
  }

  /** How many of the times are less than the window ago. */
  function RecentCount(times: seq<time>, now: time): nat {
    if times == [] then 0
    else RecentCount(times[..|times| - 1], now) + (if now - times[|times| - 1] < 120 then 1 else 0)
  }

  /** At least two times are recent exactly if the last but one is. */
  ghost predicate TwoRecent(times: seq<time>, now: time) {
    |times| >= 2 && now - times[|times| - 2] < 120
  }

  lemma {:induction false} RecentAreLast(times: seq<time>, clock: time, now: time)
    requires Ordered(times, clock) && clock <= now
    ensures RecentCount(times, now) >= 2 <==> TwoRecent(times, now)
    ensures RecentCount(times, now) >= 1 <==> |times| >= 1 && now - times[|times| - 1] < 120
  {
    if times != [] {
      RecentAreLast(times[..|times| - 1], clock, now);
    }
  }

  /** The slot that a chat gets holds its last two times since it got it, and no
      slot but the one it takes changes. */
  lemma {:induction false} SlotForChat(h: History, id: Text)
    requires Inv(h) && IsId(id)
    ensures
      var slots := Table(h);
      var (t, k) := WithSlot(slots, id);
      && Unique(t) && t[k].chat == id && Remembers(t[k], SinceAdmission(h, id))
      && forall j :: 0 <= j < SLOTS && j != k ==> t[j] == slots[j] && t[j].chat != id
  {
    var slots := Table(h);
    var f := Find(slots, id, 0);
    assert id[..Min(|id|, ID_LENGTH)] == id;
  }

  lemma StampRemembers(s: Slot, times: seq<time>, now: time)
    requires Remembers(s, times)
    ensures Remembers(s.Stamp(now), times + [now])
  {
  }

  /** Two recent stamps are two accepted messages within the window. */
  lemma RecentStamps(s: Slot, times: seq<time>, clock: time, now: time)
    requires Remembers(s, times) && Ordered(times, clock) && clock <= now
    ensures s.Recent(now) >= MAX_RECENT <==> TwoRecent(times, now)
  {
    var n := |times|;
    if n >= 2 {
      assert times[n - 2] <= times[n - 1];
    }
  }

  lemma AcceptedNext(h: History)
    requires h.Then?
    ensures
      var limited := Limited(Table(h.before), h.id, h.now);
      Accepted(h, h.id)[Admission(h, h.id)..] == SinceAdmission(h.before, h.id) + if limited then [] else [h.now]
  {
    var times, k, since := Accepted(h.before, h.id), Admission(h, h.id), SinceAdmission(h.before, h.id);
    if Find(Table(h.before), h.id, 0) == SLOTS {
      assert k == |times| && times[k..] == [] == since;
    } else {
      assert k == Admission(h.before, h.id) && times[k..] == since;
    }
    assert (times + [h.now])[k..] == times[k..] + [h.now];
  }

  /** What slot `i` remembers after the decision. */
  lemma {:induction false} SlotKeeps(h: History, i: nat)
    requires h.Then? && Inv(h.before) && IsId(h.id) && i < SLOTS && Table(h)[i].chat != []
    ensures Remembers(Table(h)[i], Accepted(h, Table(h)[i].chat)[Admission(h, Table(h)[i].chat)..])
  {
    hide Find, Victim, WithSlot, Slot.Recent, Remembers;
    var slots, after := Table(h.before), Table(h);
    var (t, k) := WithSlot(slots, h.id);
    SlotForChat(h.before, h.id);
    if i == k {
      StampRemembers(t[k], SinceAdmission(h.before, h.id), h.now);
      AcceptedNext(h);
    } else {
      assert after[i] == slots[i] && after[i].chat != h.id;
    }
  }

  lemma {:induction false} StaysUnique(h: History)
    requires h.Then? && Inv(h.before) && IsId(h.id)
    ensures Unique(Table(h))
  {
    hide Find, Victim, WithSlot, Slot.Recent, Remembers;
    var (t, k) := WithSlot(Table(h.before), h.id);
    SlotForChat(h.before, h.id);
  }

  /** Over every run the table holds, for each chat with a slot, its last two
      accepted times since it got the slot. */
  lemma {:induction false} TableRemembers(h: History, c: Text)
    requires Ticking(h)
    ensures Inv(h) && Ordered(Accepted(h, c), Clock(h))
  {
    if h.Then? {
      TableRemembers(h.before, c);
      StaysUnique(h);
      forall i | 0 <= i < SLOTS && Table(h)[i].chat != []
        ensures Remembers(Table(h)[i], Accepted(h, Table(h)[i].chat)[Admission(h, Table(h)[i].chat)..]) {
        SlotKeeps(h, i);
      }
    }
  }

  lemma OrderedSuffix(times: seq<time>, clock: time, k: nat)
    requires Ordered(times, clock) && k <= |times|
    ensures Ordered(times[k..], clock)
  {
  }

  /** For any number of chats: a message is refused exactly if at least two of
      its chat were accepted since the chat last got its slot and less than the
      window ago. */
  lemma {:induction false} LimitedExactly(before: History, id: Text, now: time)
    requires Ticking(Then(before, id, now))
    ensures Limited(Table(before), id, now) <==> RecentCount(SinceAdmission(before, id), now) >= 2
    ensures Limited(Table(before), id, now) <==> TwoRecent(SinceAdmission(before, id), now)
  {
    TableRemembers(before, id);
    SlotForChat(before, id);
    OrderedSuffix(Accepted(before, id), Clock(before), Admission(before, id));
    var times := SinceAdmission(before, id);
    var (t, k) := WithSlot(Table(before), id);
    RecentStamps(t[k], times, Clock(before), now);
    RecentAreLast(times, Clock(before), now);
  }

  /** The limit holds, that is, a message is refused exactly if at least two of
      its chat were accepted less than the window ago, if and only if the chat has
      had two accepted since it last got its slot, or the last but one of all its
      accepted messages, if any, is out of the window. */
  lemma {:induction false} LimitHoldsExactly(before: History, id: Text, now: time)
    requires Ticking(Then(before, id, now))
    ensures
      var times := Accepted(before, id);
      (Limited(Table(before), id, now) <==> RecentCount(times, now) >= 2) <==>
        |SinceAdmission(before, id)| >= 2 || |times| < 2 || now - times[|times| - 2] >= 120
  {
    var times, since := Accepted(before, id), SinceAdmission(before, id);
    var k := if Find(Table(before), id, 0) == SLOTS then |times| else Admission(before, id);
    assert since == times[k..];
    SuffixRecent(times, k, now);
    var limited, recent := Limited(Table(before), id, now), RecentCount(times, now) >= 2;
    LimitedExactly(before, id, now);
    assert limited <==> TwoRecent(since, now);
    TableRemembers(before, id);
    RecentAreLast(times, Clock(before), now);
    assert recent <==> TwoRecent(times, now);
  }

  lemma SuffixRecent(times: seq<time>, k: nat, now: time)
    requires k <= |times|
    ensures (TwoRecent(times[k..], now) <==> TwoRecent(times, now)) <==>
              |times[k..]| >= 2 || |times| < 2 || now - times[|times| - 2] >= 120
  {
    var since := times[k..];
    if |since| >= 2 {
      assert since[|since| - 2] == times[|times| - 2];
    }
  }

  /** Two messages since the chat got its slot are two stamps in the slot. */
  lemma {:induction false} TwoStamps(h: History, id: Text)
    requires Ticking(h) && IsId(id)
    ensures
      var k := Find(Table(h), id, 0);
      |SinceAdmission(h, id)| >= 2 <==> k < SLOTS && Table(h)[k].first > 0 && Table(h)[k].second > 0
  {
    TableRemembers(h, id);
    var k := Find(Table(h), id, 0);
    if k < SLOTS {
      var times := SinceAdmission(h, id);
      OrderedSuffix(Accepted(h, id), Clock(h), Admission(h, id));
      assert Remembers(Table(h)[k], times);
    }
  }

  /** The same condition by the slot found: the limit holds if and only if the
      chat's slot has both its stamps, or the last but one of all its accepted
      messages, if any, is out of the window. */
  lemma {:induction false} LimitHoldsBySlot(before: History, id: Text, now: time)
    requires Ticking(Then(before, id, now))
    ensures
      var times, k := Accepted(before, id), Find(Table(before), id, 0);
      (Limited(Table(before), id, now) <==> RecentCount(times, now) >= 2) <==>
        || (k < SLOTS && Table(before)[k].first > 0 && Table(before)[k].second > 0)
        || |times| < 2 || now - times[|times| - 2] >= 120
  {
    TwoStamps(before, id);
    LimitHoldsExactly(before, id, now);
  }

  // ---- At most eight chats -------------------------------------------------

  /** Pairwise different chats are as many as their set has elements. */
  lemma {:induction false} ChatsDiffer(slots: seq<Slot>, used: set<Text>)
    requires Unique(slots) && forall i :: 0 <= i < |slots| ==> slots[i].chat != [] && slots[i].chat in used
    ensures |slots| <= |used|
  {
    if slots != [] {
      var last := slots[|slots| - 1].chat;
      ChatsDiffer(slots[..|slots| - 1], used - {last});
    }
  }

  /** With at most eight chats there is always room for a new one. */
  lemma RoomForAll(slots: seq<Slot>, id: Text, ids: set<Text>)
    requires |slots| == SLOTS && |ids| <= 8 && Unique(slots) && id in ids && id != []
    requires forall i :: 0 <= i < SLOTS && slots[i].chat != [] ==> slots[i].chat in ids
    requires Find(slots, id, 0) == SLOTS
    ensures slots[Victim(slots, 0, UINT32_MAX, 0)].chat == []
  {
    if slots[Victim(slots, 0, UINT32_MAX, 0)].chat != [] {
      ChatsDiffer(slots, ids - {id});
      assert false;
    }
  }

  /** A chat that has no slot now had none before. */
  lemma StillWithout(slots: seq<Slot>, after: seq<Slot>, c: Text)
    requires |slots| == |after| && c != [] && Find(after, c, 0) == |after|
    requires forall j :: 0 <= j < |slots| && slots[j].chat == c ==> after[j].chat == c
    ensures Find(slots, c, 0) == |slots|
  {
    forall j | 0 <= j < |slots| ensures slots[j].chat != c {
      assert after[j].chat != c;
    }
  }

  ghost predicate OnlyThese(slots: seq<Slot>, ids: set<Text>) {
    forall i :: 0 <= i < |slots| && slots[i].chat != [] ==> slots[i].chat in ids
  }

  lemma SlotIsFree(slots: seq<Slot>, id: Text, ids: set<Text>)
    requires |slots| == SLOTS && |ids| <= 8 && Unique(slots) && id in ids && id != [] && OnlyThese(slots, ids)
    ensures var k := WithSlot(slots, id).1; slots[k].chat == [] || slots[k].chat == id
  {
    if Find(slots, id, 0) == SLOTS {
      RoomForAll(slots, id, ids);
    }
  }

  /** No chat ever loses its slot. */
  lemma {:induction false} NobodyEvicted(h: History, ids: set<Text>, c: Text)
    requires Ticking(h) && Among(h, ids) && |ids| <= 8 && c != []
    ensures OnlyThese(Table(h), ids)
    ensures Find(Table(h), c, 0) == SLOTS ==> Accepted(h, c) == []
    ensures Admission(h, c) == 0
  {
    hide Find, WithSlot;
    if h.Then? {
      NobodyEvicted(h.before, ids, c);
      TableRemembers(h.before, c);
      var slots, after := Table(h.before), Table(h);
      SlotIsFree(slots, h.id, ids);
      SlotForChat(h.before, h.id);
      var (t, k) := WithSlot(slots, h.id);
      assert after[k].chat == h.id && forall j :: 0 <= j < SLOTS && j != k ==> after[j] == slots[j];
      if Find(after, c, 0) == SLOTS {
        assert c != h.id;
        StillWithout(slots, after, c);
      }
    }
  }

  /** With a positive clock that never goes back and at most eight chats, a
      message is refused exactly if at least two of its chat were accepted less
      than the window ago. */
  lemma {:induction false} RefusedExactly(before: History, id: Text, now: time, ids: set<Text>)
    requires |ids| <= 8 && Ticking(Then(before, id, now)) && Among(Then(before, id, now), ids)
    ensures Limited(Table(before), id, now) <==> RecentCount(Accepted(before, id), now) >= 2
  {
    LimitedExactly(before, id, now);
    NobodyEvicted(before, ids, id);
    assert Accepted(before, id)[0..] == Accepted(before, id);
  }

  lemma {:induction false} Spaced(h: History, ids: set<Text>, c: Text)
    requires |ids| <= 8 && Ticking(h) && Among(h, ids)
    ensures forall i :: 0 <= i < |Accepted(h, c)| - 2 ==> Accepted(h, c)[i + 2] as int - Accepted(h, c)[i] >= 120
  {
    if h.Then? {
      Spaced(h.before, ids, c);
      RefusedExactly(h.before, h.id, h.now, ids);
      TableRemembers(h.before, h.id);
      RecentAreLast(Accepted(h.before, h.id), Clock(h.before), h.now);
    }
  }

  /** Any three accepted messages of one chat span at least the window. */
  lemma ThreeSpanWindow(h: History, ids: set<Text>, c: Text, i: nat, j: nat, k: nat)
    requires |ids| <= 8 && Ticking(h) && Among(h, ids) && i < j < k < |Accepted(h, c)|
    ensures Accepted(h, c)[k] as int - Accepted(h, c)[i] >= 120
  {
    TableRemembers(h, c);
    Spaced(h, ids, c);
    var times := Accepted(h, c);
    assert times[i + 2] as int - times[i] >= 120 && times[i + 2] <= times[k];
  }

  // ---- Nine chats ----------------------------------------------------------

  /** In a full table a new chat takes the slot of another, whose next message is
      then accepted whatever came before. */
  lemma NinthChatForgets(slots: seq<Slot>, id: Text, now: time, later: time)
    requires |slots| == SLOTS && Unique(slots) && forall i :: 0 <= i < SLOTS ==> slots[i].chat != []
    requires Find(slots, id, 0) == SLOTS && IsId(id)
    ensures
      var victim := slots[Victim(slots, 0, UINT32_MAX, 0)].chat;
      !Limited(slots, id, now) && !Limited(Decide(slots, id, now), victim, later)
  {
    var v := Victim(slots, 0, UINT32_MAX, 0);
    var victim, after := slots[v].chat, Decide(slots, id, now);
    assert id[..Min(|id|, ID_LENGTH)] == id;
    assert after[v].chat == id != victim;
    assert Find(after, victim, 0) == SLOTS;
  }

  /** The table after one message each of chats 1 to `k`, all at time 1. */
  function Filled(k: nat): (r: seq<Slot>)
    requires k <= SLOTS
    ensures |r| == SLOTS
    ensures forall i :: 0 <= i < SLOTS ==> r[i] == if i < k then Slot([i + 1], 1, 0, 1) else FREE
  {
    if k == 0 then [FREE, FREE, FREE, FREE, FREE, FREE, FREE, FREE] else Filled(k - 1)[k - 1 := Slot([k], 1, 0, 1)]
  }

  function OneEach(k: nat): (h: History)
    requires k <= SLOTS
    ensures k > 0 ==> Clock(h) == 1
  {
    if k == 0 then Start else Then(OneEach(k - 1), [k], 1)
  }

  lemma {:induction false} FirstFreeIsTaken(slots: seq<Slot>, i: nat, oldest: time, best: nat, k: nat)
    requires i <= k < |slots| && best < |slots| && slots[k].chat == []
    requires forall j :: i <= j < k ==> slots[j].chat != []
    ensures Victim(slots, i, oldest, best) == k
    decreases k - i
  {
    if i < k {
      FirstFreeIsTaken(slots, i + 1, if slots[i].Oldest() < oldest then slots[i].Oldest() else oldest,
                       if slots[i].Oldest() < oldest then i else best, k);
    }
  }

  lemma {:induction false} FirstQuietIsTaken(slots: seq<Slot>, i: nat, best: nat)
    requires i <= |slots| && best < |slots|
    requires forall j :: i <= j < |slots| ==> slots[j].chat != []
    ensures Victim(slots, i, 0, best) == best
    decreases |slots| - i
  {
    if i < |slots| {
      FirstQuietIsTaken(slots, i + 1, best);
    }
  }

  /** A new chat in a full table where every chat has one stamp takes the first slot. */
  lemma TakesFirst(slots: seq<Slot>, id: Text)
    requires |slots| == SLOTS && IsId(id) && Find(slots, id, 0) == SLOTS
    requires forall j :: 0 <= j < SLOTS ==> slots[j].chat != [] && slots[j].Oldest() == 0
    ensures !Limited(slots, id, 1) && Decide(slots, id, 1) == slots[0 := Slot(id, 1, 0, 1)]
  {
    FirstQuietIsTaken(slots, 1, 0);
    assert id[..Min(|id|, ID_LENGTH)] == id;
    assert Victim(slots, 0, UINT32_MAX, 0) == 0;
    assert WithSlot(slots, id) == (slots[0 := Slot(id, 0, 0, 0)], 0);
  }

  lemma NextIsAdmitted(k: nat)
    requires 0 < k <= SLOTS
    ensures !Limited(Filled(k - 1), [k], 1) && Decide(Filled(k - 1), [k], 1) == Filled(k)
  {
    var slots := Filled(k - 1);
    assert Find(slots, [k], 0) == SLOTS;
    FirstFreeIsTaken(slots, 0, UINT32_MAX, 0, k - 1);
    assert [k][..Min(1, ID_LENGTH)] == [k];
    assert WithSlot(slots, [k]) == (slots[k - 1 := Slot([k], 0, 0, 0)], k - 1);
  }

  lemma {:induction false} FillsUp(k: nat)
    requires k <= SLOTS
    ensures Table(OneEach(k)) == Filled(k) && Accepted(OneEach(k), [1]) == (if k == 0 then [] else [1])
    ensures Ticking(OneEach(k))
  {
    if k > 0 {
      FillsUp(k - 1);
      NextIsAdmitted(k);
      AcceptedOne(OneEach(k - 1), [k], [1]);
      assert [k] == [1] <==> k == 1 by {
        assert [k][0] == k && [1][0] == 1;
      }
    }
  }

  /** Every chat has one stamp, at time 1; the first slot is chat `first`'s. */
  predicate Quiet(slots: seq<Slot>, first: byte) {
    && |slots| == SLOTS && slots[0] == Slot([first], 1, 0, 1)
    && forall j :: 1 <= j < SLOTS ==> slots[j] == Slot([j + 1], 1, 0, 1)
  }

  /** Another chat takes the first slot. */
  lemma QuietTakesFirst(slots: seq<Slot>, first: byte, chat: byte)
    requires Quiet(slots, first) && chat != first && (chat == 1 || chat == SLOTS + 1)
    ensures Find(slots, [chat], 0) == SLOTS
    ensures !Limited(slots, [chat], 1) && Quiet(Decide(slots, [chat], 1), chat)
  {
    forall j | 0 <= j < SLOTS ensures slots[j].chat != [] && slots[j].chat != [chat] && slots[j].Oldest() == 0 {
      var b: byte := if j == 0 then first else j + 1;
      assert slots[j] == Slot([b], 1, 0, 1) && [b][0] != [chat][0];
    }
    assert Find(slots, [chat], 0) == SLOTS;
    TakesFirst(slots, [chat]);
  }

  lemma AcceptedOne(h: History, id: Text, c: Text)
    requires !Limited(Table(h), id, 1)
    ensures Accepted(Then(h, id, 1), c) == Accepted(h, c) + if id == c then [1] else []
  {
  }

  lemma {:induction false} OneMore(h: History, first: byte, chat: byte)
    requires Quiet(Table(h), first) && Ticking(h) && Clock(h) == 1
    requires chat != first && (chat == 1 || chat == SLOTS + 1)
    ensures
      var h' := Then(h, [chat], 1);
      && Quiet(Table(h'), chat) && Ticking(h') && Clock(h') == 1
      && Accepted(h', [1]) == Accepted(h, [1]) + if chat == 1 then [1] else []
  {
    QuietTakesFirst(Table(h), first, chat);
    AcceptedOne(h, [chat], [1]);
    assert [chat][0] == chat && [1][0] == 1;
  }

  /** After one message each of eight chats, the ninth takes the slot of the first,
      and the first takes it back with its second accepted message. */
  lemma {:induction false} TenMessages(h: History)
    requires Quiet(Table(h), 1) && Accepted(h, [1]) == [1] && Ticking(h) && Clock(h) == 1
    ensures
      var h' := Then(Then(h, [9], 1), [1], 1);
      Quiet(Table(h'), 1) && Accepted(h', [1]) == [1, 1] && Ticking(h')
  {
    OneMore(h, 1, 9);
    OneMore(Then(h, [9], 1), 9, 1);
  }

  lemma BothRecent()
    ensures RecentCount([1, 1], 1) == 2
  {
    assert [1, 1][..1] == [1] && [1][..0] == [];
    assert RecentCount([1], 1) == 1;
  }

  lemma FirstIsAccepted(slots: seq<Slot>)
    requires Quiet(slots, 1)
    ensures !Limited(slots, [1], 1)
  {
    assert Find(slots, [1], 0) == 0 && WithSlot(slots, [1]) == (slots, 0);
  }

  /** Nine chats are too many: after one message each, all at one time, the first
      chat has a second message accepted, and then, with two accepted at that very
      time, a third. */
  lemma {:induction false} NineChatsSlip(k: nat)
    requires k == SLOTS
    ensures
      var h := Then(Then(OneEach(k), [9], 1), [1], 1);
      Ticking(Then(h, [1], 1)) && RecentCount(Accepted(h, [1]), 1) == 2 && !Limited(Table(h), [1], 1)
  {
    FillsUp(k);
    TenMessages(OneEach(k));
    BothRecent();
    FirstIsAccepted(Table(Then(Then(OneEach(k), [9], 1), [1], 1)));
  }
}
