/** The receive ring: the DMA engine fills empty descriptors in ring order, the
    driver's loop hands their frames up and gives the slots back, and the steps
    of both interleave in any way. */
module RxRing {
  import opened Bytes
  import opened Rings
  import opened EthernetBuffers

  /** `empty` is the ownership bit: set, the slot belongs to the engine. */
  datatype Desc = Desc(empty: bool, wrap: bool, length: nat, buffer: seq<byte>)

  /** What the engine reports; only what fits the buffer is stored. */
  datatype Arrival = Arrival(length: nat, data: seq<byte>)
  {
    predicate Possible() { |data| == Min(length, BUFFER_SIZE) }

    /** The frame to hand up, if the length makes sense. */
    function Frame(): seq<seq<byte>> {
      if 0 < length <= 1536 then [data] else []
    }
  }

  /** Where the driver's loop stands; `wrap` is the bit of the control word it
      has read. */
  datatype Phase =
    | Looking
    | Holding(wrap: bool)
    | Dispatched(wrap: bool)
    | Cleared(wrap: bool)
    | Returned

  /** `arrived` lists what the engine stored, `returned` counts the slots given
      back, `dispatched` lists what was handed up. */
  datatype State = State(descs: seq<Desc>, engine: nat, head: nat, phase: Phase,
                         arrived: seq<Arrival>, returned: nat, dispatched: seq<seq<byte>>)
  {
    ghost predicate Bounded() {
      && |descs| > 0 && head < |descs| && engine < |descs|
      && forall i :: 0 <= i < |descs| ==> |descs[i].buffer| == BUFFER_SIZE
    }

    /** The oldest slot that is not yet given back. */
    ghost function Oldest(): nat
      requires Bounded()
    {
      if phase == Returned then Next(head, |descs|) else head
    }

    ghost function View(): (r: seq<Desc>)
      requires Bounded()
      ensures |r| == |descs|
    {
      Ring(descs, Oldest(), |descs|)
    }
  }

  datatype Event = Arrive(arrival: Arrival) | Driver

  function Initial(n: nat): State
    requires n > 0
  {
    State(seq(n, i requires 0 <= i < n => Desc(true, i == n - 1, 0, seq(BUFFER_SIZE, _ => 0))),
          0, 0, Looking, [], 0, [])
  }

  function Stored(d: Desc, a: Arrival): Desc
    requires |d.buffer| == BUFFER_SIZE && a.Possible()
  {
    d.(empty := false, length := a.length, buffer := a.data + d.buffer[|a.data|..])
  }

  /** The engine stores a frame if its slot is empty, and finds its next slot by
      the wrap bit. */
  function EngineStep(s: State, a: Arrival): State
    requires s.Bounded() && a.Possible()
  {
    var d := s.descs[s.engine];
    if !d.empty then s
    else s.(descs := s.descs[s.engine := Stored(d, a)],
            engine := if d.wrap then 0 else s.engine + 1,
            arrived := s.arrived + [a])
  }

  /** One statement of the driver's loop. */
  function DriverStep(s: State): State
    requires s.Bounded()
  {
    var d := s.descs[s.head];
    match s.phase
    case Looking => if d.empty then s else s.(phase := Holding(d.wrap))
    case Holding(w) =>
      s.(phase := Dispatched(w),
         dispatched := s.dispatched + if 0 < d.length <= BUFFER_SIZE then [d.buffer[..d.length]] else [])
    case Dispatched(w) => s.(phase := Cleared(w), descs := s.descs[s.head := d.(length := 0)])
    case Cleared(w) =>
      s.(phase := Returned, descs := s.descs[s.head := d.(empty := true, wrap := w)], returned := s.returned + 1)
    case Returned => s.(phase := Looking, head := if s.head + 1 >= |s.descs| then 0 else s.head + 1)
  }

  // ---- What always holds ---------------------------------------------------

  /** The frames among the first `n` arrivals that are handed up. */
  function Accepted(a: seq<Arrival>, n: nat): seq<seq<byte>>
    requires n <= |a|
  {
    if n == 0 then [] else Accepted(a, n - 1) + a[n - 1].Frame()
  }

  /** How many of the arrivals numbered `from` to `to` are too long. */
  function TooLong(a: seq<Arrival>, from: nat, to: nat): nat
    requires from <= to <= |a|
  {
    if from == to then 0 else TooLong(a, from, to - 1) + if a[to - 1].length > 1536 then 1 else 0
  }

  lemma {:induction false} AcceptedOfPrefix(a: seq<Arrival>, b: seq<Arrival>, n: nat)
    requires n <= |a|
    ensures Accepted(a + b, n) == Accepted(a, n)
  {
    if n > 0 {
      AcceptedOfPrefix(a, b, n - 1);
    }
  }

  ghost predicate WrapsAtEnd(descs: seq<Desc>) {
    forall i :: 0 <= i < |descs| ==> (descs[i].wrap <==> i == |descs| - 1)
  }

  ghost predicate Holds(d: Desc, a: Arrival, cleared: bool) {
    a.Possible() && |d.buffer| == BUFFER_SIZE && d.buffer[..|a.data|] == a.data && (!cleared ==> d.length == a.length)
  }

  /** The full slots are one run from the oldest on, with the arrivals not yet
      returned in their order; every other slot is empty. */
  ghost predicate RunOk(view: seq<Desc>, pending: seq<Arrival>, cleared: bool) {
    && |pending| <= |view|
    && (forall j :: 0 <= j < |view| ==> (view[j].empty <==> j >= |pending|))
    && (forall j :: 0 <= j < |pending| ==> Holds(view[j], pending[j], cleared && j == 0))
  }

  ghost predicate Inv(s: State) {
    && s.Bounded() && WrapsAtEnd(s.descs)
    && s.returned <= |s.arrived| <= s.returned + |s.descs|
    && s.engine == Tail(s.Oldest(), |s.arrived| - s.returned, |s.descs|)
    && RunOk(s.View(), s.arrived[s.returned..], s.phase.Cleared?)
    && PhaseOk(s)
  }

  ghost predicate PhaseOk(s: State)
    requires s.Bounded() && s.returned <= |s.arrived|
  {
    && (s.phase.Holding? || s.phase.Dispatched? || s.phase.Cleared? ==>
          s.returned < |s.arrived| && s.phase.wrap == s.descs[s.head].wrap)
    && s.dispatched == Accepted(s.arrived, s.returned + Underway(s))
  }

  ghost function Underway(s: State): (n: nat)
    requires s.Bounded() && s.returned <= |s.arrived|
    ensures n <= 1 && s.returned + n <= |s.arrived|
  {
    if (s.phase.Dispatched? || s.phase.Cleared?) && s.returned < |s.arrived| then 1 else 0
  }

  lemma InvBounds(s: State)
    requires Inv(s)
    ensures s.Bounded() && s.returned <= |s.arrived|
  {
  }

  lemma InitialOk(n: nat)
    requires n > 0
    ensures Inv(Initial(n))
  {
  }

  lemma RunGrows(view: seq<Desc>, pending: seq<Arrival>, cleared: bool, a: Arrival)
    requires RunOk(view, pending, cleared) && |pending| < |view| && a.Possible() && (cleared ==> pending != [])
    requires |view[|pending|].buffer| == BUFFER_SIZE
    ensures RunOk(view[|pending| := Stored(view[|pending|], a)], pending + [a], cleared)
  {
    var d := Stored(view[|pending|], a);
    assert Holds(d, a, false);
    var v, q := view[|pending| := d], pending + [a];
    forall j | 0 <= j < |q| ensures Holds(v[j], q[j], cleared && j == 0) {
      if j < |pending| {
        assert Holds(view[j], pending[j], cleared && j == 0);
      }
    }
  }

  lemma RunShrinks(view: seq<Desc>, pending: seq<Arrival>, d: Desc)
    requires RunOk(view, pending, true) && pending != [] && d.empty
    ensures RunOk(view[1..] + [d], pending[1..], false)
  {
    var v, q := view[1..] + [d], pending[1..];
    forall j | 0 <= j < |q| ensures Holds(v[j], q[j], false) {
      assert Holds(view[j + 1], pending[j + 1], false);
    }
  }

  lemma RunCleared(view: seq<Desc>, pending: seq<Arrival>)
    requires RunOk(view, pending, false) && pending != []
    ensures RunOk(view[0 := view[0].(length := 0)], pending, true)
  {
    var v := view[0 := view[0].(length := 0)];
    forall j | 0 <= j < |pending| ensures Holds(v[j], pending[j], j == 0) {
      assert Holds(view[j], pending[j], false);
    }
  }

  /** The engine's slot is the first behind the run. */
  lemma EngineSlot(s: State)
    requires Inv(s)
    ensures
      var full := |s.arrived| - s.returned;
      && (s.descs[s.engine].empty <==> full < |s.descs|)
      && (full < |s.descs| ==> s.View()[full] == s.descs[s.engine])
  {
    var n, full := |s.descs|, |s.arrived| - s.returned;
    if full < n {
      RingUpdate(s.descs, s.Oldest(), full, s.descs[s.engine]);
    } else {
      RingUpdate(s.descs, s.Oldest(), 0, s.descs[s.engine]);
    }
  }

  lemma EngineKeepsPhase(s: State, a: Arrival)
    requires Inv(s) && a.Possible() && |s.arrived| < s.returned + |s.descs|
    ensures
      var t := EngineStep(s, a);
      t.Bounded() && t.arrived == s.arrived + [a] && t.Oldest() == s.Oldest() && PhaseOk(t)
  {
    EngineSlot(s);
    AcceptedOfPrefix(s.arrived, [a], s.returned + Underway(s));
    assert Underway(EngineStep(s, a)) == Underway(s);
  }

  lemma EngineKeepsRun(s: State, a: Arrival)
    requires Inv(s) && a.Possible() && |s.arrived| < s.returned + |s.descs|
    ensures
      var t := EngineStep(s, a);
      t.Bounded() && |t.arrived| >= t.returned && RunOk(t.View(), t.arrived[t.returned..], t.phase.Cleared?)
  {
    var full := |s.arrived| - s.returned;
    EngineSlot(s);
    EngineKeepsPhase(s, a);
    var t, d := EngineStep(s, a), Stored(s.descs[s.engine], a);
    RingUpdate(s.descs, s.Oldest(), full, d);
    RunGrows(s.View(), s.arrived[s.returned..], s.phase.Cleared?, a);
    assert t.arrived[t.returned..] == s.arrived[s.returned..] + [a];
    assert t.View() == s.View()[full := d];
  }

  lemma EngineStores(s: State, a: Arrival)
    requires Inv(s) && a.Possible() && |s.arrived| < s.returned + |s.descs|
    ensures Inv(EngineStep(s, a)) && EngineStep(s, a).arrived == s.arrived + [a]
  {
    var full := |s.arrived| - s.returned;
    EngineSlot(s);
    EngineKeepsPhase(s, a);
    EngineKeepsRun(s, a);
    TailSteps(s.Oldest(), full, |s.descs|);
    var t := EngineStep(s, a);
    assert WrapsAtEnd(t.descs);
    assert t.engine == Tail(t.Oldest(), full + 1, |t.descs|);
  }

  /** The engine keeps the invariant; it stores the frame exactly if a slot is free. */
  lemma EngineKeeps(s: State, a: Arrival)
    requires Inv(s) && a.Possible()
    ensures Inv(EngineStep(s, a))
    ensures EngineStep(s, a).arrived == s.arrived + (if |s.arrived| < s.returned + |s.descs| then [a] else [])
  {
    EngineSlot(s);
    if |s.arrived| < s.returned + |s.descs| {
      EngineStores(s, a);
    }
  }

  lemma LookingKeeps(s: State)
    requires Inv(s) && s.phase.Looking?
    ensures Inv(DriverStep(s))
  {
    RingUpdate(s.descs, s.head, 0, s.descs[s.head]);
    var t := DriverStep(s);
    assert t.View() == s.View();
  }

  lemma HoldingKeeps(s: State)
    requires Inv(s) && s.phase.Holding?
    ensures Inv(DriverStep(s))
  {
    var t := DriverStep(s);
    RingUpdate(s.descs, s.head, 0, s.descs[s.head]);
    assert Holds(s.View()[0], s.arrived[s.returned..][0], false);
    assert t.View() == s.View();
    assert PhaseOk(t);
  }

  lemma DispatchedKeeps(s: State)
    requires Inv(s) && s.phase.Dispatched?
    ensures Inv(DriverStep(s))
  {
    var t := DriverStep(s);
    RingUpdate(s.descs, s.head, 0, s.descs[s.head].(length := 0));
    RunCleared(s.View(), s.arrived[s.returned..]);
    assert PhaseOk(t);
  }

  lemma ClearedKeeps(s: State)
    requires Inv(s) && s.phase.Cleared?
    ensures Inv(DriverStep(s))
  {
    var t := DriverStep(s);
    var d := s.descs[s.head].(empty := true, wrap := s.phase.wrap);
    RingOverwrite(s.descs, s.head, d);
    RunShrinks(s.View(), s.arrived[s.returned..], d);
    assert t.arrived[t.returned..] == s.arrived[s.returned..][1..];
    TailSteps(s.head, |s.arrived| - s.returned - 1, |s.descs|);
    assert PhaseOk(t);
  }

  /** Every statement of the driver keeps the invariant. */
  lemma DriverKeeps(s: State)
    requires Inv(s)
    ensures Inv(DriverStep(s))
  {
    match s.phase
    case Looking => LookingKeeps(s);
    case Holding(_) => HoldingKeeps(s);
    case Dispatched(_) => DispatchedKeeps(s);
    case Cleared(_) => ClearedKeeps(s);
    case Returned =>
      assert DriverStep(s).View() == s.View();
  }

  // ---- Runs ----------------------------------------------------------------

  datatype History = Boot | Then(before: History, event: Event)

  ghost function Step(s: State, e: Event): State
    requires Inv(s)
  {
    match e
    case Driver => DriverStep(s)
    case Arrive(a) => if a.Possible() then EngineStep(s, a) else s
  }

  lemma StepKeeps(s: State, e: Event)
    requires Inv(s)
    ensures Inv(Step(s, e)) && |Step(s, e).descs| == |s.descs|
  {
    match e
    case Driver => DriverKeeps(s);
    case Arrive(a) => if a.Possible() { EngineKeeps(s, a); }
  }

  ghost function After(h: History, n: nat): (s: State)
    requires n > 0
    ensures Inv(s) && |s.descs| == n
  {
    match h
    case Boot => InitialOk(n); Initial(n)
    case Then(before, e) =>
      var s := After(before, n);
      StepKeeps(s, e);
      Step(s, e)
  }

  /** The frames handed up are exactly the sensible ones among the first
      arrivals, once each and in order. */
  ghost predicate InOrder(s: State) {
    && s.Bounded() && s.returned <= |s.arrived| <= s.returned + |s.descs|
    && s.dispatched == Accepted(s.arrived, s.returned + Underway(s))
  }

  /** Slot `j` of the run from the oldest slot on is full exactly if a frame
      waits there, whose octets it still holds; only the last slot wraps. */
  ghost predicate RunAt(s: State, j: nat)
    requires s.Bounded() && j < |s.descs| && s.returned <= |s.arrived|
  {
    && (s.descs[j].wrap <==> j == |s.descs| - 1)
    && var d := s.descs[Tail(s.Oldest(), j, |s.descs|)];
    && (d.empty <==> s.returned + j >= |s.arrived|)
    && (!d.empty ==>
          var data := s.arrived[s.returned + j].data;
          |data| <= |d.buffer| && d.buffer[..|data|] == data)
  }

  lemma SlotOfRun(s: State, j: nat)
    requires Inv(s) && j < |s.descs|
    ensures InOrder(s) && RunAt(s, j)
  {
    RingUpdate(s.descs, s.Oldest(), j, s.descs[0]);
    var pending := s.arrived[s.returned..];
    if j < |pending| {
      assert Holds(s.View()[j], pending[j], s.phase.Cleared? && j == 0);
    }
  }

  /** In every interleaving of the engine and the driver's statements. */
  lemma InOrderDelivery(h: History, n: nat, j: nat)
    requires n > 0 && j < n
    ensures InOrder(After(h, n)) && RunAt(After(h, n), j)
  {
    SlotOfRun(After(h, n), j);
  }

  // ---- The loop without interruption ---------------------------------------

  /** One round of the driver's loop from its first statement to its last. */
  function Round(s: State): State
    requires s.Bounded() && s.phase.Looking?
  {
    var d := s.descs[s.head];
    if d.empty then s
    else
      s.(descs := s.descs[s.head := d.(length := 0, empty := true)],
         head := Next(s.head, |s.descs|),
         returned := s.returned + 1,
         dispatched := s.dispatched + if 0 < d.length <= BUFFER_SIZE then [d.buffer[..d.length]] else [])
  }

  /** A round is the five statements in a row. */
  lemma RoundIsSteps(s: State)
    requires s.Bounded() && s.phase.Looking? && !s.descs[s.head].empty
    ensures
      var s1 := DriverStep(s);
      var s2 := DriverStep(s1);
      var s3 := DriverStep(s2);
      var s4 := DriverStep(s3);
      DriverStep(s4) == Round(s)
  {
    var d, h := s.descs[s.head], s.head;
    var s2 := DriverStep(DriverStep(s));
    assert s2.descs == s.descs && s2.phase == Dispatched(d.wrap);
    var s4 := DriverStep(DriverStep(s2));
    assert s4.descs == s.descs[h := d.(length := 0)][h := d.(length := 0, empty := true)];
    assert s4.descs == Round(s).descs && s4.phase.Returned?;
  }

  lemma OldestHolds(s: State)
    requires Inv(s) && s.phase.Looking? && !s.descs[s.head].empty
    ensures s.returned < |s.arrived| && s.descs[s.head].length == s.arrived[s.returned].length
  {
    RingUpdate(s.descs, s.head, 0, s.descs[0]);
    assert !s.View()[0].empty;
    assert Holds(s.View()[0], s.arrived[s.returned..][0], false);
  }

  lemma OneRound(s: State)
    requires Inv(s) && s.phase.Looking?
    ensures Inv(Round(s)) && Round(s).phase.Looking? && (!s.descs[s.head].empty ==> s.returned < |s.arrived|)
    ensures !s.descs[s.head].empty ==> s.descs[s.head].length == s.arrived[s.returned].length
    ensures var t := Round(s);
            t.arrived == s.arrived && t.engine == s.engine
            && t.returned == if s.descs[s.head].empty then s.returned else s.returned + 1
  {
    if !s.descs[s.head].empty {
      OldestHolds(s);
      var s1 := DriverStep(s);
      LookingKeeps(s);
      var s2 := DriverStep(s1);
      HoldingKeeps(s1);
      var s3 := DriverStep(s2);
      DispatchedKeeps(s2);
      var s4 := DriverStep(s3);
      ClearedKeeps(s3);
      DriverKeeps(s4);
      RoundIsSteps(s);
    }
  }

  /** A loop that finds the next slot empty has taken everything. */
  lemma Drained(s: State)
    requires Inv(s) && s.phase.Looking? && s.descs[s.head].empty
    ensures s.returned == |s.arrived| && s.dispatched == Accepted(s.arrived, |s.arrived|)
    ensures forall i :: 0 <= i < |s.descs| ==> s.descs[i].empty
  {
    var n := |s.descs|;
    SlotOfRun(s, 0);
    forall i | 0 <= i < n ensures s.descs[i].empty {
      var j := if i >= s.head then i - s.head else i + n - s.head;
      SlotOfRun(s, j);
    }
  }
}
