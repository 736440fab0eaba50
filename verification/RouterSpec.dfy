/** The receive router as a specification: each subscription's drop-oldest queue
    as positions in the sequence of the frames that matched it, and the table of
    subscriptions over any history of arrivals, receives, openings and closings. */
module RouterSpec {
  import opened CanBus
  import opened Bytes

  const QUEUE_DEPTH := 16
  const MAX_SUBSCRIBERS := 6

  // ---- One queue -----------------------------------------------------------

  /** `next` is the position of the oldest queued frame; `takenAt` lists the
      positions that receivers were handed, in order. */
  datatype Log = Log(arrived: seq<CanFrame>, next: nat, takenAt: seq<nat>)
  {
    /** The frames still queued, oldest first. */
    function Queued(): seq<CanFrame>
      requires next <= |arrived|
    {
      arrived[next..]
    }

    /** The position after the newest frame handed to a receiver. */
    function After(): nat {
      if takenAt == [] then 0 else takenAt[|takenAt| - 1] + 1
    }

    /** The queue holds the newest frames not yet handed out, at most
        `QUEUE_DEPTH` of them, and frames are handed out in arrival order. */
    predicate Valid() {
      && next <= |arrived|
      && next == (if |arrived| > After() + QUEUE_DEPTH then |arrived| - QUEUE_DEPTH else After())
      && (forall i :: 0 <= i < |takenAt| ==> takenAt[i] < next)
      && (forall i, j :: 0 <= i < j < |takenAt| ==> takenAt[i] < takenAt[j])
    }

    function Offer(f: CanFrame): (r: QueueLog)
      requires Valid()
      ensures |r.Queued()| <= QUEUE_DEPTH
      ensures r.Queued() == (if |Queued()| == QUEUE_DEPTH then Queued()[1..] else Queued()) + [f]
    {
      Log(arrived + [f], if |arrived| - next == QUEUE_DEPTH then next + 1 else next, takenAt)
    }

    function Take(): (r: QueueLog)
      requires Valid() && Queued() != []
      ensures r.Queued() == Queued()[1..]
    {
      Log(arrived, next + 1, takenAt + [next])
    }

    /** The frames receivers were handed. */
    function Taken(): (r: seq<CanFrame>)
      requires Valid()
      ensures |r| == |takenAt|
      ensures forall i :: 0 <= i < |r| ==> r[i] == arrived[takenAt[i]]
    {
      seq(|takenAt|, i requires 0 <= i < |takenAt| => arrived[takenAt[i]])
    }

    /** The positions that were queued once and are neither queued nor handed out. */
    ghost function DroppedAt(): set<nat> {
      set p | p in Below(next) && p !in takenAt
    }

    /** What neither a receiver nor the queue has. */
    function Missing(): int
      requires Valid()
    {
      |arrived| - |Taken()| - |Queued()|
    }
  }

  const EMPTY := Log([], 0, [])

  type QueueLog = log: Log | log.Valid() witness EMPTY

  function Below(n: nat): (r: set<nat>)
    ensures |r| == n && forall p :: p in r <==> 0 <= p < n
  {
    if n == 0 then {} else Below(n - 1) + {n - 1}
  }

  lemma LastOf(s: seq<nat>)
    requires s != []
    ensures forall p :: p in s <==> p in s[..|s| - 1] || p == s[|s| - 1]
  {
    assert s == s[..|s| - 1] + [s[|s| - 1]];
  }

  /** Increasing numbers are pairwise different. */
  lemma {:induction false} Elements(s: seq<nat>) returns (r: set<nat>)
    requires forall i, j :: 0 <= i < j < |s| ==> s[i] < s[j]
    ensures |r| == |s|
    ensures forall p :: p in r <==> p in s
  {
    r := {};
    if s != [] {
      var front, last := s[..|s| - 1], s[|s| - 1];
      var before := Elements(front);
      forall p | p in front ensures p < last {
        var i :| 0 <= i < |front| && front[i] == p;
        assert s[i] < s[|s| - 1];
      }
      assert last !in before;
      LastOf(s);
      r := before + {last};
    }
  }

  /** Every frame that arrived was received, is queued, or was dropped. */
  lemma Conservation(log: Log)
    requires log.Valid()
    ensures |log.arrived| == |log.Taken()| + |log.Queued()| + |log.DroppedAt()|
  {
    var taken := Elements(log.takenAt);
    var below := Below(log.next);
    assert taken <= below;
    assert log.DroppedAt() == below - taken;
    assert |below - taken| == |below| - |taken|;
  }

  /** The queue is the newest of the frames behind the last one handed out, at
      most sixteen of them. */
  lemma NewestUnread(log: QueueLog)
    ensures log.After() <= |log.arrived|
    ensures log.Queued() == log.arrived[|log.arrived| - Min(16, |log.arrived| - log.After())..]
  {
  }

  // ---- The table -----------------------------------------------------------

  datatype Sub = Sub(active: bool, extended: bool, id: nat, mask: nat, log: QueueLog)
  {
    predicate Matches(f: CanFrame) {
      extended == f.extended && AndBits(f.id, mask, 32) == AndBits(id, mask, 32)
    }

    predicate Wants(f: CanFrame) { active && Matches(f) }

    function Offer(f: CanFrame): Sub {
      if Wants(f) then this.(log := log.Offer(f)) else this
    }

    function Missing(): int {
      if active then log.Missing() else 0
    }
  }

  /** `closed` counts the frames dropped by subscriptions closed since. */
  datatype Table = Table(subs: seq<Sub>, closed: nat)
  {
    function Drops(): int { closed + Sum(subs, |subs|) }
  }

  function Sum(subs: seq<Sub>, n: nat): int
    requires n <= |subs|
  {
    if n == 0 then 0 else Sum(subs, n - 1) + subs[n - 1].Missing()
  }

  lemma {:induction false} SumUpdate(subs: seq<Sub>, i: nat, s: Sub, n: nat)
    requires i < |subs| && n <= |subs|
    ensures Sum(subs[i := s], n) == Sum(subs, n) + if i < n then s.Missing() - subs[i].Missing() else 0
  {
    if n > 0 {
      SumUpdate(subs, i, s, n - 1);
    }
  }

  lemma OfferMisses(s: Sub, f: CanFrame)
    ensures s.Offer(f).Missing() == s.Missing() + if s.Wants(f) && |s.log.Queued()| == QUEUE_DEPTH then 1 else 0
  {
  }

  lemma TakeMisses(log: QueueLog)
    requires log.Queued() != []
    ensures log.Take().Missing() == log.Missing()
  {
  }

  /** Dispatching in the first `k` slots. */
  function Dispatched(t: Table, f: CanFrame, k: nat): (r: Table)
    requires k <= |t.subs|
    ensures |r.subs| == |t.subs| && r.closed == t.closed
    ensures forall i :: 0 <= i < |t.subs| ==> r.subs[i] == if i < k then t.subs[i].Offer(f) else t.subs[i]
  {
    if k == 0 then t
    else
      var r := Dispatched(t, f, k - 1);
      r.(subs := r.subs[k - 1 := r.subs[k - 1].Offer(f)])
  }

  /** The first free slot, or the number of slots. */
  function FirstFree(subs: seq<Sub>, i: nat): (k: nat)
    requires i <= |subs|
    ensures i <= k <= |subs| && (k < |subs| ==> !subs[k].active) && forall j :: i <= j < k ==> subs[j].active
    decreases |subs| - i
  {
    if i == |subs| || !subs[i].active then i else FirstFree(subs, i + 1)
  }

  datatype Event =
    | Arrive(frame: CanFrame)
    | Take(slot: int)
    | Open(id: nat, mask: nat, extended: bool)
    | Close(slot: int)

  predicate Live(t: Table, slot: int) {
    0 <= slot < |t.subs| && t.subs[slot].active
  }

  /** An event that is not possible changes nothing. */
  function Step(t: Table, e: Event): (r: Table)
    ensures |r.subs| == |t.subs|
  {
    match e
    case Arrive(f) => Dispatched(t, f, |t.subs|)
    case Take(i) =>
      if !Live(t, i) || t.subs[i].log.Queued() == [] then t
      else t.(subs := t.subs[i := t.subs[i].(log := t.subs[i].log.Take())])
    case Open(id, mask, extended) =>
      var k := FirstFree(t.subs, 0);
      if k == |t.subs| then t else t.(subs := t.subs[k := Sub(true, extended, id, mask, EMPTY)])
    case Close(i) =>
      if !Live(t, i) then t
      else
        Conservation(t.subs[i].log);
        Table(t.subs[i := t.subs[i].(active := false)], t.closed + t.subs[i].log.Missing())
  }

  // ---- Histories -----------------------------------------------------------

  datatype History = Boot | Then(before: History, event: Event)

  const NOBODY := Sub(false, false, 0, 0, EMPTY)
  const BOOTED := Table([NOBODY, NOBODY, NOBODY, NOBODY, NOBODY, NOBODY], 0)

  function After(h: History): (t: Table)
    ensures |t.subs| == MAX_SUBSCRIBERS
  {
    match h
    case Boot => BOOTED
    case Then(before, e) => Step(After(before), e)
  }

  predicate Opens(t: Table, e: Event, i: nat) {
    e.Open? && FirstFree(t.subs, 0) == i
  }

  /** All frames that arrived since slot `i` was last opened. */
  function Since(h: History, i: nat): seq<CanFrame> {
    match h
    case Boot => []
    case Then(before, e) =>
      if Opens(After(before), e, i) then []
      else Since(before, i) + if e.Arrive? then [e.frame] else []
  }

  /** What receivers on slot `i` were handed since it was last opened: each time
      the oldest frame of the queue. */
  function Handed(h: History, i: nat): seq<CanFrame>
    requires i < MAX_SUBSCRIBERS
  {
    match h
    case Boot => []
    case Then(before, e) =>
      var t := After(before);
      if Opens(t, e, i) then []
      else
        Handed(before, i) +
        if e == Take(i) && Live(t, i) && t.subs[i].log.Queued() != [] then [t.subs[i].log.Queued()[0]] else []
  }

  /** The frames of `s` that match the subscription, in order. */
  function Matching(s: seq<CanFrame>, sub: Sub): seq<CanFrame> {
    if s == [] then []
    else
      var f := s[|s| - 1];
      Matching(s[..|s| - 1], sub) + if sub.Matches(f) then [f] else []
  }

  lemma {:induction false} MatchingIgnoresLog(s: seq<CanFrame>, sub: Sub, log: QueueLog)
    ensures Matching(s, sub.(log := log)) == Matching(s, sub)
  {
    if s != [] {
      MatchingIgnoresLog(s[..|s| - 1], sub, log);
    }
  }

  /** The frame is one that the opening event asked for: of its kind, and equal to
      its identifier in every bit that is set in its mask. */
  predicate Wanted(f: CanFrame, opening: Event)
    requires opening.Open?
  {
    f.extended == opening.extended && AgreeOn(f.id, opening.id, opening.mask, 32)
  }

  function WantedOf(s: seq<CanFrame>, opening: Event): seq<CanFrame>
    requires opening.Open?
  {
    if s == [] then []
    else
      var f := s[|s| - 1];
      WantedOf(s[..|s| - 1], opening) + if Wanted(f, opening) then [f] else []
  }

  /** The event that last opened slot `i`. */
  function Opening(h: History, i: nat): (e: Event)
    ensures e.Open?
  {
    match h
    case Boot => Open(0, 0, false)
    case Then(before, e) => if Opens(After(before), e, i) then e else Opening(before, i)
  }

  /** A slot is live exactly from its opening to its closing, and holds what its
      opening event said. */
  lemma {:induction false} SlotIsAsOpened(h: History, i: nat)
    requires i < MAX_SUBSCRIBERS
    ensures After(h).subs[i].active <==> IsOpen(h, i)
    ensures
      var sub, opening := After(h).subs[i], Opening(h, i);
      sub.active ==> sub.extended == opening.extended && forall f :: sub.Matches(f) <==> Wanted(f, opening)
  {
    SlotKeepsFields(h, i);
    var sub, opening := After(h).subs[i], Opening(h, i);
    if sub.active {
      forall f ensures sub.Matches(f) <==> Wanted(f, opening) {
        MaskedEqual(f.id, opening.id, opening.mask, 32);
      }
    }
  }

  /** Only an opening event changes what a slot asks for. */
  lemma StepKeepsFields(t: Table, e: Event, i: nat)
    requires i < |t.subs|
    ensures
      var before, after := t.subs[i], Step(t, e).subs[i];
      if Opens(t, e, i) then after == Sub(true, e.extended, e.id, e.mask, EMPTY)
      else (after.extended, after.id, after.mask) == (before.extended, before.id, before.mask)
    ensures
      var before, after := t.subs[i], Step(t, e).subs[i];
      after.active <==> Opens(t, e, i) || (before.active && e != Close(i))
  {
    hide Log.Valid, Log.Take, Log.Offer, Log.Missing, Sub.Wants;
    match e
    case Arrive(f) => assert Step(t, e).subs[i] == t.subs[i].Offer(f);
    case Take(k) =>
    case Open(_, _, _) =>
    case Close(k) =>
  }

  /** Slot `i` was opened and not closed since. */
  predicate IsOpen(h: History, i: nat) {
    match h
    case Boot => false
    case Then(before, e) => Opens(After(before), e, i) || (IsOpen(before, i) && e != Close(i))
  }

  lemma {:induction false} SlotKeepsFields(h: History, i: nat)
    requires i < MAX_SUBSCRIBERS
    ensures
      var sub, opening := After(h).subs[i], Opening(h, i);
      sub.active ==> sub.extended == opening.extended && sub.id == opening.id && sub.mask == opening.mask
    ensures After(h).subs[i].active <==> IsOpen(h, i)
  {
    hide Step, Log.Valid;
    if h.Then? {
      SlotKeepsFields(h.before, i);
      StepKeepsFields(After(h.before), h.event, i);
    }
  }

  lemma {:induction false} MatchingIsWanted(s: seq<CanFrame>, sub: Sub, opening: Event)
    requires opening.Open? && forall f :: sub.Matches(f) <==> Wanted(f, opening)
    ensures Matching(s, sub) == WantedOf(s, opening)
  {
    if s != [] {
      MatchingIsWanted(s[..|s| - 1], sub, opening);
    }
  }

  /** For every history: the log of a live subscription is exactly the frames that
      arrived since it was opened and that its opening event asked for. */
  lemma {:induction false} LogIsWhatWasAsked(h: History, i: nat)
    requires i < MAX_SUBSCRIBERS && IsOpen(h, i)
    ensures After(h).subs[i].active
    ensures After(h).subs[i].log.arrived == WantedOf(Since(h, i), Opening(h, i))
  {
    EachLogIsItsArrivals(h, i);
    SlotIsAsOpened(h, i);
    MatchingIsWanted(Since(h, i), After(h).subs[i], Opening(h, i));
  }

  /** A mask of all `n` identifier bits takes exactly one identifier. */
  lemma FullMaskTakesOne(f: CanFrame, id: nat, extended: bool, n: nat)
    requires n <= 32 && f.id < Pow2(n) && id < Pow2(n)
    ensures Wanted(f, Open(id, Pow2(n) - 1, extended)) <==> f.id == id && f.extended == extended
  {
    if Wanted(f, Open(id, Pow2(n) - 1, extended)) {
      forall i | 0 <= i < n ensures Bit(f.id, i) == Bit(id, i) {
        AllBitsSet(n, i);
      }
      SameBits(f.id, id, n);
    }
  }

  /** How often a dispatch found a queue full. */
  function Overflows(h: History): nat {
    match h
    case Boot => 0
    case Then(before, e) =>
      Overflows(before) + if e.Arrive? then FullQueues(After(before).subs, e.frame, MAX_SUBSCRIBERS) else 0
  }

  function FullQueues(subs: seq<Sub>, f: CanFrame, n: nat): nat
    requires n <= |subs|
  {
    if n == 0 then 0
    else
      FullQueues(subs, f, n - 1) +
      if subs[n - 1].Wants(f) && |subs[n - 1].log.Queued()| == QUEUE_DEPTH then 1 else 0
  }

  /** A live subscription's log agrees with what arrived and what was handed out. */
  ghost predicate Accounts(sub: Sub, since: seq<CanFrame>, handed: seq<CanFrame>) {
    sub.active ==> sub.log.arrived == Matching(since, sub) && sub.log.Taken() == handed
  }

  lemma OfferAccounts(sub: Sub, since: seq<CanFrame>, handed: seq<CanFrame>, f: CanFrame)
    requires Accounts(sub, since, handed)
    ensures Accounts(sub.Offer(f), since + [f], handed)
  {
    assert (since + [f])[..|since|] == since;
    if sub.Wants(f) {
      var log := sub.log.Offer(f);
      MatchingIgnoresLog(since + [f], sub, log);
      assert log.Taken() == sub.log.Taken();
    }
  }

  lemma TakeAccounts(sub: Sub, since: seq<CanFrame>, handed: seq<CanFrame>)
    requires Accounts(sub, since, handed) && sub.active && sub.log.Queued() != []
    ensures Accounts(sub.(log := sub.log.Take()), since, handed + [sub.log.Queued()[0]])
  {
    var log := sub.log.Take();
    MatchingIgnoresLog(since, sub, log);
    assert log.Taken() == sub.log.Taken() + [sub.log.Queued()[0]];
  }

  /** One event, for slot `i`. */
  lemma StepAccounts(t: Table, e: Event, i: nat, since: seq<CanFrame>, handed: seq<CanFrame>)
    requires i < |t.subs| && Accounts(t.subs[i], since, handed)
    ensures
      var takes := e == Take(i) && Live(t, i) && t.subs[i].log.Queued() != [];
      Accounts(Step(t, e).subs[i],
               if Opens(t, e, i) then [] else since + (if e.Arrive? then [e.frame] else []),
               if Opens(t, e, i) then [] else handed + (if takes then [t.subs[i].log.Queued()[0]] else []))
  {
    var sub, sub' := t.subs[i], Step(t, e).subs[i];
    match e
    case Arrive(f) =>
      assert sub' == sub.Offer(f) && handed + [] == handed;
      OfferAccounts(sub, since, handed, f);
    case Take(k) =>
      assert since + [] == since && handed + [] == handed;
      if k == i && sub.active && sub.log.Queued() != [] {
        TakeAccounts(sub, since, handed);
      }
    case Open(id, mask, extended) =>
      assert since + [] == since && handed + [] == handed;
      assert EMPTY.Taken() == [];
    case Close(_) =>
      assert since + [] == since && handed + [] == handed;
  }

  /** For every history and every live subscription: its log is exactly the
      frames that arrived since it was opened and match it, and receivers were
      handed exactly what the log says; its queue is then the newest of them not
      yet handed out, at most sixteen. */
  lemma {:induction false} EachLogIsItsArrivals(h: History, i: nat)
    requires i < MAX_SUBSCRIBERS
    ensures Accounts(After(h).subs[i], Since(h, i), Handed(h, i))
  {
    if h.Then? {
      EachLogIsItsArrivals(h.before, i);
      StepAccounts(After(h.before), h.event, i, Since(h.before, i), Handed(h.before, i));
    }
  }

  lemma OfferDrops(t: Table, f: CanFrame, i: nat)
    requires i < |t.subs|
    ensures t.(subs := t.subs[i := t.subs[i].Offer(f)]).Drops() ==
            t.Drops() + if t.subs[i].Wants(f) && |t.subs[i].log.Queued()| == QUEUE_DEPTH then 1 else 0
  {
    OfferMisses(t.subs[i], f);
    SumUpdate(t.subs, i, t.subs[i].Offer(f), |t.subs|);
  }

  lemma {:induction false} DispatchDrops(t: Table, f: CanFrame, k: nat)
    requires k <= |t.subs|
    ensures Dispatched(t, f, k).Drops() == t.Drops() + FullQueues(t.subs, f, k)
  {
    hide Sub.Offer, Sub.Wants, Table.Drops;
    if k == 0 {
      assert Dispatched(t, f, 0) == t;
    } else {
      var r := Dispatched(t, f, k - 1);
      var d := Dispatched(t, f, k);
      assert d == r.(subs := r.subs[k - 1 := r.subs[k - 1].Offer(f)]) && r.subs[k - 1] == t.subs[k - 1];
      var before, drops := r.Drops(), d.Drops();
      OfferDrops(r, f, k - 1);
      assert drops == before + if t.subs[k - 1].Wants(f) && |t.subs[k - 1].log.Queued()| == QUEUE_DEPTH then 1 else 0;
      DispatchDrops(t, f, k - 1);
    }
  }

  lemma {:induction false} NoneLive(subs: seq<Sub>, n: nat)
    requires n <= |subs| && forall i :: 0 <= i < n ==> !subs[i].active
    ensures Sum(subs, n) == 0
  {
    if n > 0 {
      NoneLive(subs, n - 1);
    }
  }

  lemma StepDrops(t: Table, e: Event)
    ensures Step(t, e).Drops() == t.Drops() + if e.Arrive? then FullQueues(t.subs, e.frame, |t.subs|) else 0
  {
    match e
    case Arrive(f) => DispatchDrops(t, f, |t.subs|);
    case Take(i) =>
      if Live(t, i) && t.subs[i].log.Queued() != [] {
        TakeMisses(t.subs[i].log);
        SumUpdate(t.subs, i, t.subs[i].(log := t.subs[i].log.Take()), |t.subs|);
      }
    case Open(id, mask, extended) =>
      var k := FirstFree(t.subs, 0);
      if k < |t.subs| {
        SumUpdate(t.subs, k, Sub(true, extended, id, mask, EMPTY), |t.subs|);
      }
    case Close(i) =>
      if Live(t, i) {
        Conservation(t.subs[i].log);
        SumUpdate(t.subs, i, t.subs[i].(active := false), |t.subs|);
      }
  }

  /** For every history the number of overflows is the sum, over the live
      subscriptions, of the frames that arrived, were not handed out and are not
      queued, plus what closed subscriptions had dropped. */
  lemma {:induction false} OverflowsAreDrops(h: History)
    ensures Overflows(h) == After(h).Drops()
  {
    if h.Boot? {
      NoneLive(BOOTED.subs, MAX_SUBSCRIBERS);
    } else {
      OverflowsAreDrops(h.before);
      StepDrops(After(h.before), h.event);
    }
  }
}
