/** The transmit ring: the driver fills descriptors and hands them to the DMA
    engine, which sends them in ring order; the steps of both interleave in any
    way. */
module TxRing {
  import opened Bytes
  import opened Rings
  import opened EthernetBuffers

  type Frame = seq<byte>

  /** `ready` is the ownership bit: set, the slot belongs to the engine. */
  datatype Desc = Desc(ready: bool, wrap: bool, last: bool, crc: bool, length: nat, buffer: seq<byte>)

  /** Where the driver's transmit call stands; `wrap` is the bit of the control
      word it has read. */
  datatype Phase =
    | Idle
    | Copying(frame: Frame, wrap: bool)
    | Describing(frame: Frame, wrap: bool)
    | Granting(frame: Frame)
    | Granted

  /** `accepted` lists the frames handed to the engine, as they should appear on
      the wire; `sent` lists what the engine sent. */
  datatype State = State(descs: seq<Desc>, engine: nat, head: nat, phase: Phase, accepted: seq<Frame>, sent: seq<Frame>)
  {
    ghost predicate Bounded() {
      && |descs| > 0 && head < |descs| && engine < |descs|
      && forall i :: 0 <= i < |descs| ==> |descs[i].buffer| == BUFFER_SIZE && descs[i].length <= BUFFER_SIZE
    }

    /** The slot of the next call. */
    ghost function Free(): nat
      requires Bounded()
    {
      if phase.Granted? then Next(head, |descs|) else head
    }

    ghost function View(): (r: seq<Desc>)
      requires Bounded()
      ensures |r| == |descs|
    {
      Ring(descs, engine, |descs|)
    }
  }

  datatype Event = Call(frame: Frame) | Driver | Engine

  function Initial(n: nat): State
    requires n > 0
  {
    State(seq(n, i requires 0 <= i < n => Desc(false, i == n - 1, false, true, 0, seq(BUFFER_SIZE, _ => 0))),
          0, 0, Idle, [], [])
  }

  /** Short frames are filled up with zeros. */
  function Padded(f: Frame): (r: Frame)
    requires |f| <= BUFFER_SIZE
    ensures |r| == if |f| < 60 then 60 else |f|
    ensures forall i :: 0 <= i < |r| ==> r[i] == if i < |f| then f[i] else 0
  {
    if |f| < MIN_FRAME then f + seq(MIN_FRAME - |f|, _ => 0) else f
  }

  /** Whether the call gets as far as writing its slot. */
  predicate Takes(s: State, f: Frame)
    requires s.head < |s.descs|
  {
    s.phase.Idle? && 0 < |f| <= BUFFER_SIZE && !s.descs[s.head].ready
  }

  function CallStep(s: State, f: Frame): State
    requires s.head < |s.descs|
  {
    if Takes(s, f) then s.(phase := Copying(f, s.descs[s.head].wrap)) else s
  }

  ghost predicate PhaseFits(s: State) {
    s.phase.Copying? || s.phase.Describing? || s.phase.Granting? ==> 0 < |s.phase.frame| <= BUFFER_SIZE
  }

  function Filled(d: Desc, f: Frame): Desc
    requires |f| <= BUFFER_SIZE == |d.buffer|
  {
    d.(buffer := Padded(f) + d.buffer[|Padded(f)|..])
  }

  /** One statement of the driver. */
  function DriverStep(s: State): State
    requires s.Bounded() && PhaseFits(s)
  {
    var d := s.descs[s.head];
    match s.phase
    case Idle => s
    case Copying(f, w) => s.(phase := Describing(f, w), descs := s.descs[s.head := Filled(d, f)])
    case Describing(f, w) =>
      s.(phase := Granting(f), descs := s.descs[s.head := Desc(false, w, true, true, |Padded(f)|, d.buffer)])
    case Granting(f) =>
      s.(phase := Granted, descs := s.descs[s.head := d.(ready := true)], accepted := s.accepted + [Padded(f)])
    case Granted => s.(phase := Idle, head := if s.head + 1 >= |s.descs| then 0 else s.head + 1)
  }

  /** The engine sends its slot if it is ready, gives it back, and finds its next
      slot by the wrap bit. */
  function EngineStep(s: State): State
    requires s.Bounded()
  {
    var d := s.descs[s.engine];
    if !d.ready then s
    else s.(descs := s.descs[s.engine := d.(ready := false)],
            engine := if d.wrap then 0 else s.engine + 1,
            sent := s.sent + [d.buffer[..d.length]])
  }

  // ---- What always holds ---------------------------------------------------

  ghost predicate WrapsAtEnd(descs: seq<Desc>) {
    forall i :: 0 <= i < |descs| ==> (descs[i].wrap <==> i == |descs| - 1)
  }

  ghost predicate Holds(d: Desc, f: Frame) {
    |f| <= |d.buffer| && d.length == |f| && d.buffer[..|f|] == f && d.last && d.crc
  }

  /** The ready slots are one run from the engine on, with the frames not yet
      sent in their order. */
  ghost predicate RunOk(view: seq<Desc>, pending: seq<Frame>) {
    && |pending| <= |view|
    && (forall j :: 0 <= j < |view| ==> (view[j].ready <==> j < |pending|))
    && (forall j :: 0 <= j < |pending| ==> Holds(view[j], pending[j]))
  }

  /** The part of the invariant about the driver's own slot. */
  ghost predicate SlotOk(s: State)
    requires s.Bounded()
  {
    var d := s.descs[s.head];
    && PhaseFits(s)
    && (s.phase.Copying? || s.phase.Describing? || s.phase.Granting? ==> !d.ready)
    && (s.phase.Copying? || s.phase.Describing? ==> s.phase.wrap == d.wrap)
    && (s.phase.Describing? ==> d.buffer[..|Padded(s.phase.frame)|] == Padded(s.phase.frame))
    && (s.phase.Granting? ==> Holds(d, Padded(s.phase.frame)))
  }

  ghost predicate Inv(s: State) {
    && s.Bounded() && WrapsAtEnd(s.descs) && SlotOk(s)
    && |s.sent| <= |s.accepted| && s.sent == s.accepted[..|s.sent|]
    && |s.accepted| - |s.sent| <= |s.descs|
    && s.Free() == Tail(s.engine, |s.accepted| - |s.sent|, |s.descs|)
    && RunOk(s.View(), s.accepted[|s.sent|..])
  }

  lemma InitialOk(n: nat)
    requires n > 0
    ensures Inv(Initial(n))
  {
  }

  /** Slot `j` of the run. */
  lemma SlotOfRun(s: State, j: nat)
    requires Inv(s) && j < |s.descs|
    ensures
      var d := s.descs[Tail(s.engine, j, |s.descs|)];
      && d == s.View()[j]
      && (d.ready <==> j < |s.accepted| - |s.sent|)
      && (d.ready ==> Holds(d, s.accepted[|s.sent| + j]))
  {
    RingUpdate(s.descs, s.engine, j, s.descs[0]);
    var pending := s.accepted[|s.sent|..];
    if j < |pending| {
      assert Holds(s.View()[j], pending[j]);
    }
  }

  lemma RunUnchanged(view: seq<Desc>, pending: seq<Frame>, j: nat, d: Desc)
    requires RunOk(view, pending) && |pending| <= j < |view| && !d.ready
    ensures RunOk(view[j := d], pending)
  {
  }

  lemma RunGrows(view: seq<Desc>, pending: seq<Frame>, d: Desc, f: Frame)
    requires RunOk(view, pending) && |pending| < |view| && d.ready && Holds(d, f)
    ensures RunOk(view[|pending| := d], pending + [f])
  {
    var v, q := view[|pending| := d], pending + [f];
    forall j | 0 <= j < |q| ensures Holds(v[j], q[j]) {
      if j < |pending| {
        assert Holds(view[j], pending[j]);
      }
    }
  }

  lemma RunShrinks(view: seq<Desc>, pending: seq<Frame>, d: Desc)
    requires RunOk(view, pending) && pending != [] && !d.ready
    ensures RunOk(view[1..] + [d], pending[1..])
  {
    var v, q := view[1..] + [d], pending[1..];
    forall j | 0 <= j < |q| ensures Holds(v[j], q[j]) {
      assert Holds(view[j + 1], pending[j + 1]);
    }
  }

  /** While the driver has a slot to write, fewer than all slots are ready and
      the driver's slot is the first behind the run. */
  lemma DriverSlot(s: State)
    requires Inv(s) && !s.phase.Granted?
    ensures
      var count := |s.accepted| - |s.sent|;
      && (s.descs[s.head].ready <==> count == |s.descs|)
      && (count < |s.descs| ==> s.head == Tail(s.engine, count, |s.descs|))
  {
    var count := |s.accepted| - |s.sent|;
    if count < |s.descs| {
      SlotOfRun(s, count);
    } else {
      SlotOfRun(s, 0);
    }
  }

  /** A slot is rewritten without being handed over. */
  lemma WritingKeeps(s: State, d: Desc, phase: Phase)
    requires Inv(s) && (s.phase.Copying? || s.phase.Describing?)
    requires phase.Describing? || phase.Granting?
    requires !d.ready && |d.buffer| == BUFFER_SIZE && d.length <= BUFFER_SIZE && d.wrap == s.descs[s.head].wrap
    requires var t := s.(descs := s.descs[s.head := d], phase := phase); SlotOk(t)
    ensures Inv(s.(descs := s.descs[s.head := d], phase := phase))
  {
    var t := s.(descs := s.descs[s.head := d], phase := phase);
    var count := |s.accepted| - |s.sent|;
    DriverSlot(s);
    RingUpdate(s.descs, s.engine, count, d);
    RunUnchanged(s.View(), s.accepted[|s.sent|..], count, d);
    assert WrapsAtEnd(t.descs);
  }

  lemma GrantingKeeps(s: State)
    requires Inv(s) && s.phase.Granting?
    ensures Inv(DriverStep(s))
  {
    var t, d := DriverStep(s), s.descs[s.head].(ready := true);
    var count := |s.accepted| - |s.sent|;
    DriverSlot(s);
    RingUpdate(s.descs, s.engine, count, d);
    RunGrows(s.View(), s.accepted[|s.sent|..], d, Padded(s.phase.frame));
    TailSteps(s.engine, count, |s.descs|);
    assert t.accepted[|t.sent|..] == s.accepted[|s.sent|..] + [Padded(s.phase.frame)];
    assert t.View() == s.View()[count := d];
    assert WrapsAtEnd(t.descs);
  }

  lemma DriverKeeps(s: State)
    requires Inv(s)
    ensures Inv(DriverStep(s))
  {
    var d := s.descs[s.head];
    match s.phase
    case Idle =>
    case Copying(f, w) => WritingKeeps(s, Filled(d, f), Describing(f, w));
    case Describing(f, w) => WritingKeeps(s, Desc(false, w, true, true, |Padded(f)|, d.buffer), Granting(f));
    case Granting(_) => GrantingKeeps(s);
    case Granted =>
      assert DriverStep(s).View() == s.View();
  }

  lemma CallKeeps(s: State, f: Frame)
    requires Inv(s)
    ensures Inv(CallStep(s, f))
  {
    assert CallStep(s, f).View() == s.View();
  }

  lemma EngineSends(s: State)
    requires Inv(s) && s.descs[s.engine].ready
    ensures Inv(EngineStep(s)) && EngineStep(s).sent == s.sent + [s.accepted[|s.sent|]]
  {
    var t, d := EngineStep(s), s.descs[s.engine].(ready := false);
    SlotOfRun(s, 0);
    RingOverwrite(s.descs, s.engine, d);
    RunShrinks(s.View(), s.accepted[|s.sent|..], d);
    TailSteps(s.engine, |s.accepted| - |s.sent| - 1, |s.descs|);
    assert t.accepted[|t.sent|..] == s.accepted[|s.sent|..][1..];
    assert WrapsAtEnd(t.descs);
    assert SlotOk(t);
  }

  // ---- Runs ----------------------------------------------------------------

  datatype History = Boot | Then(before: History, event: Event)

  ghost function Step(s: State, e: Event): (t: State)
    requires Inv(s)
  {
    match e
    case Call(f) => CallStep(s, f)
    case Driver => DriverStep(s)
    case Engine => EngineStep(s)
  }

  lemma StepKeeps(s: State, e: Event)
    requires Inv(s)
    ensures Inv(Step(s, e)) && |Step(s, e).descs| == |s.descs|
  {
    match e
    case Call(f) => CallKeeps(s, f);
    case Driver => DriverKeeps(s);
    case Engine => if s.descs[s.engine].ready { EngineSends(s); }
  }

  ghost function After(h: History, n: nat): (s: State)
    requires n > 0
    ensures Inv(s) && |s.descs| == n
  {
    match h
    case Boot => InitialOk(n); Initial(n)
    case Then(before, e) =>
      var s := After(before, n);
      StepKeeps(s, e);
      Step(s, e)
  }

  /** In every interleaving what was sent is the beginning of what was accepted,
      each frame once, in order, whole and padded. */
  lemma InOrderTransmission(h: History, n: nat)
    requires n > 0
    ensures
      var s := After(h, n);
      && 0 <= |s.accepted| - |s.sent| <= n
      && s.sent == s.accepted[..|s.sent|]
  {
  }

  /** Slot `j` of the run from the engine's slot on is ready exactly if a frame
      waits there; the run ends just before the slot of the next call, and only the
      last slot wraps. */
  ghost predicate RunAt(s: State, j: nat)
    requires s.Bounded() && j < |s.descs| && 0 <= |s.accepted| - |s.sent| <= |s.descs|
  {
    var count := |s.accepted| - |s.sent|;
    && s.Free() == Tail(s.engine, count, |s.descs|)
    && (s.descs[Tail(s.engine, j, |s.descs|)].ready <==> j < count)
    && (s.descs[j].wrap <==> j == |s.descs| - 1)
  }

  lemma SlotIsInRun(s: State, j: nat)
    requires Inv(s) && j < |s.descs|
    ensures RunAt(s, j)
  {
    SlotOfRun(s, j);
  }

  /** In every interleaving. */
  lemma OneRun(h: History, n: nat, j: nat)
    requires n > 0 && j < n
    ensures RunAt(After(h, n), j)
  {
    SlotIsInRun(After(h, n), j);
  }

  /** Neither a call nor a statement of the driver touches a slot that the engine
      owns. */
  lemma DriverLeavesReadySlots(h: History, n: nat, e: Event, i: nat)
    requires n > 0 && i < n && !e.Engine?
    ensures After(h, n).descs[i].ready ==> After(Then(h, e), n).descs[i] == After(h, n).descs[i]
  {
  }

  // ---- A call without interruption -----------------------------------------

  /** A transmit call from its first statement to its last. */
  function Transmitted(s: State, f: Frame): State
    requires s.Bounded() && s.phase.Idle?
  {
    if !Takes(s, f) then s
    else
      var d := s.descs[s.head];
      s.(descs := s.descs[s.head := Desc(true, d.wrap, true, true, |Padded(f)|, Filled(d, f).buffer)],
         head := Next(s.head, |s.descs|),
         accepted := s.accepted + [Padded(f)])
  }

  lemma FourSteps(s: State, f: Frame)
    requires s.Bounded() && s.phase.Idle? && Takes(s, f)
    ensures
      var s1 := CallStep(s, f);
      var s2 := DriverStep(s1);
      var s3 := DriverStep(s2);
      var s4 := DriverStep(s3);
      DriverStep(s4) == Transmitted(s, f)
  {
  }

  /** So the next call finds the invariant again. */
  lemma TransmittedKeeps(s: State, f: Frame)
    requires Inv(s) && s.phase.Idle?
    ensures Inv(Transmitted(s, f)) && Transmitted(s, f).phase.Idle?
  {
    if Takes(s, f) {
      var s1 := CallStep(s, f);
      CallKeeps(s, f);
      var s2 := DriverStep(s1);
      DriverKeeps(s1);
      var s3 := DriverStep(s2);
      DriverKeeps(s2);
      var s4 := DriverStep(s3);
      DriverKeeps(s3);
      DriverKeeps(s4);
      FourSteps(s, f);
    }
  }

  /** A call is accepted exactly if the frame has 1 to 1536 octets and some slot is
      free, and then as it is, filled up to 60 octets with zeros. */
  lemma AcceptedExactly(s: State, f: Frame)
    requires Inv(s) && s.phase.Idle?
    ensures
      var free := |s.accepted| - |s.sent| < |s.descs|;
      Transmitted(s, f).accepted ==
      s.accepted + if 1 <= |f| <= 1536 && free then [f + seq(if |f| < 60 then 60 - |f| else 0, _ => 0)] else []
  {
    DriverSlot(s);
    if |f| <= BUFFER_SIZE {
      assert Padded(f) == f + seq(if |f| < 60 then 60 - |f| else 0, _ => 0);
    }
  }

  /** The next statement of a call that has got its slot: the frame is handed over
      by the third, and the fourth ends the call. */
  lemma CallGoesOn(s: State)
    requires Inv(s)
    ensures
      var t := DriverStep(s);
      match s.phase
      case Idle => t == s
      case Copying(f, w) => t.phase == Describing(f, w) && t.accepted == s.accepted
      case Describing(f, _) => t.phase == Granting(f) && t.accepted == s.accepted
      case Granting(f) => t.phase == Granted && t.accepted == s.accepted + [Padded(f)]
      case Granted => t.phase == Idle && t.accepted == s.accepted
  {
  }
}
