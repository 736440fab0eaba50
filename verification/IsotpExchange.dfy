/** One request and its response as a two-station step system over two FIFO
    channels.  Frames are consumed from append-only logs, and a lost frame is
    one the reader skips. */
module IsotpExchange {
  import opened Bytes
  import opened CanBus
  import opened IsotpSpec
  import opened IsotpChannel
  import opened Errno

  // ---- The system ----------------------------------------------------------

  datatype Channel = Channel(log: seq<CanFrame>, read: nat)
  {
    predicate Unread() { read < |log| }
    function Put(f: CanFrame): Channel { Channel(log + [f], read) }
    function Skip(): Channel { Channel(log, read + 1) }
  }

  datatype M7 = Requesting(s: Sender) | Awaiting(r: Receiver)

  datatype Ecu = Listening | Responding(t: Sender)

  /** `delivered` lists the requests the ECU processed. */
  datatype Net = Net(m7: M7, ecu: Ecu, rx: EcuRx, up: Channel, down: Channel, delivered: seq<Payload>)

  /** `answer` is the payload the ECU's server computes for a request. */
  datatype Job = Job(request: Payload, answer: Payload -> Payload, capacity: nat)
  {
    ghost predicate Valid() {
      && 1 <= |request| <= MAX_PAYLOAD
      && (forall q :: q != [] ==> 1 <= |answer(q)| <= MAX_PAYLOAD)
    }
    function Response(): Payload { answer(request) }
  }

  /** The ECU's receive context may be anything an earlier exchange left, such as
      a reception that lost its tail and is still active. */
  ghost predicate Init(job: Job, n: Net) {
    && n.m7 == Requesting(Begin(job.request)) && n.ecu == Listening
    && n.rx.Valid()
    && n.up == Channel([], 0) && n.down == Channel([], 0) && n.delivered == []
  }

  function Requested(s: Sender): M7 {
    if s.phase == Ended(SendOk) then Awaiting(AwaitFirst) else Requesting(s)
  }

  function Responded(t: Sender): Ecu {
    if t.phase.Ended? then Listening else Responding(t)
  }

  predicate M7Enabled(n: Net) {
    match n.m7
    case Requesting(s) => s.phase.Emit? || (s.phase.AwaitFlow? && n.down.Unread())
    case Awaiting(r) => (r.AwaitFirst? || r.Collecting?) && n.down.Unread()
  }

  predicate EcuEnabled(n: Net) {
    match n.ecu
    case Listening => n.up.Unread()
    case Responding(t) => t.phase.Emit? || (t.phase.AwaitFlow? && n.up.Unread())
  }

  predicate Final(n: Net) {
    !M7Enabled(n) && !EcuEnabled(n)
  }

  ghost predicate Wf(n: Net) {
    && (n.m7.Requesting? ==> n.m7.s.Valid())
    && (n.m7.Awaiting? ==> ReceiverValid(n.m7.r))
    && (n.ecu.Responding? ==> n.ecu.t.Valid())
    && n.rx.Valid()
  }

  function M7Step(job: Job, n: Net): (n': Net)
    requires Wf(n) && M7Enabled(n)
    ensures Wf(n')
  {
    match n.m7
    case Requesting(s) =>
      if s.phase.Emit? then n.(m7 := Requested(AfterEmit(s)), up := n.up.Put(FrameOf(s, M7_LINK)))
      else n.(m7 := Requesting(OnFlow(s, n.down.log[n.down.read], M7_LINK)), down := n.down.Skip())
    case Awaiting(r) =>
      var reaction := OnResponse(r, n.down.log[n.down.read], job.capacity);
      n.(m7 := Awaiting(reaction.next), down := n.down.Skip(),
         up := if reaction.flow.Some? then n.up.Put(FlowFrame(reaction.flow.value, M7_LINK)) else n.up)
  }

  function EcuStep(job: Job, n: Net): (n': Net)
    requires Wf(n) && EcuEnabled(n)
    ensures Wf(n')
  {
    match n.ecu
    case Listening =>
      var (rx, action) := EcuOnFrame(n.rx, n.up.log[n.up.read]);
      var n1 := n.(rx := rx, up := n.up.Skip());
      (match action
       case Nothing => n1
       case Flow(status) => n1.(down := n.down.Put(FlowFrame(status, ECU_LINK)))
       case Deliver(q) =>
         n1.(delivered := n.delivered + [q], ecu := if q == [] then Listening else Responded(Begin(job.answer(q)))))
    case Responding(t) =>
      if t.phase.Emit? then n.(ecu := Responded(AfterEmit(t)), down := n.down.Put(FrameOf(t, ECU_LINK)))
      else n.(ecu := Responded(OnFlow(t, n.up.log[n.up.read], ECU_LINK)), up := n.up.Skip())
  }

  /** A step of a working system. */
  ghost predicate Step(job: Job, n: Net, n': Net) {
    Wf(n) && ((M7Enabled(n) && n' == M7Step(job, n)) || (EcuEnabled(n) && n' == EcuStep(job, n)))
  }

  /** A lost frame, or a deadline that passes on either side. */
  ghost predicate Fault(n: Net, n': Net) {
    || (n.up.Unread() && n' == n.(up := n.up.Skip()))
    || (n.down.Unread() && n' == n.(down := n.down.Skip()))
    || n' == n.(m7 := Awaiting(Refused(-ETIMEDOUT)))
    || (n.ecu.Responding? && n' == n.(ecu := Listening))
  }

  // ---- Safety over a lossy channel -----------------------------------------

  /** Request frames the M7 has put on the bus. */
  function Emitted(job: Job, n: Net): nat {
    if n.m7.Requesting? then n.m7.s.sent else Min(|n.up.log|, FrameCount(job.request))
  }

  /** Flow control frames the ECU has put on the bus. */
  function Granted(n: Net): nat {
    if n.down.log != [] && n.down.log[0].Kind() == 3 then 1 else 0
  }

  /** Octets stored from the first `k` frames of a long message. */
  function Filled(k: int): int { 7 * k - 1 }

  ghost predicate UpShape(job: Job, n: Net) {
    var p := job.request;
    var e := Emitted(job, n);
    && |p| <= MAX_PAYLOAD && n.up.read <= |n.up.log| <= FrameCount(p) + 1
    && e <= FrameCount(p) && e <= |n.up.log|
    && (forall i :: 0 <= i < e ==> n.up.log[i] == CanFrame(ECU_REQUEST_ID, false, false, 8, Octets(p, i)))
    && (|n.up.log| > e ==>
          && e == FrameCount(p) && |n.up.log| == e + 1
          && (n.up.log[e] == FlowFrame(0, M7_LINK) || n.up.log[e] == FlowFrame(2, M7_LINK)))
  }

  ghost predicate DownShape(job: Job, n: Net) {
    var a := job.Response();
    var h := Granted(n);
    && |a| <= MAX_PAYLOAD && n.down.read <= |n.down.log| <= h + FrameCount(a)
    && (h == 1 ==> n.down.log[0] == FlowFrame(0, ECU_LINK) && |job.request| > 7)
    && (forall i :: h <= i < |n.down.log| ==> n.down.log[i].dlc == 8 && n.down.log[i].data == Octets(a, i - h))
  }

  ghost predicate EcuShape(job: Job, n: Net) {
    var p := job.request;
    n.rx.Valid() &&
    if n.delivered == [] then
      && n.ecu == Listening && |n.down.log| == Granted(n)
      && n.up.read <= Emitted(job, n) == |n.up.log|
      && (Granted(n) == 1 ==> n.up.read >= 1)
      && (Granted(n) == 0 && |p| > 7 ==> |n.up.log| <= 1)
      && (n.rx.active && Granted(n) == 1 ==>
            && |p| > 7 && n.rx.total == |p|
            && n.rx.received <= Filled(n.up.read)
            && (n.rx.received == Filled(n.up.read) ==> n.rx.payload[..n.rx.received] <= p))
    else
      && n.delivered == [p] && n.m7.Awaiting? && (|p| > 7 ==> !n.rx.active)
      && FrameCount(p) <= n.up.read
      && (n.ecu.Responding? ==>
            && n.ecu.t.payload == job.Response() && !n.ecu.t.phase.Ended?
            && |n.down.log| == Granted(n) + n.ecu.t.sent
            && (n.ecu.t.phase.AwaitFlow? ==> n.ecu.t.sent == 1)
            && (n.ecu.t.phase.Emit? && n.ecu.t.sent >= 1 ==> n.ecu.t.blockSize == 0))
  }

  ghost predicate M7Shape(job: Job, n: Net) {
    var a := job.Response();
    match n.m7
    case Requesting(s) =>
      && s.payload == job.request && |n.up.log| == s.sent < FrameCount(job.request)
      && (s.phase.AwaitFlow? ==> s.sent == 1)
      && (s.phase.Emit? && s.sent >= 1 ==> s.blockSize == 0 && n.down.read >= Granted(n) == 1)
    case Awaiting(r) =>
      && (r.AwaitFirst? ==>
            && |n.up.log| == FrameCount(job.request) && n.down.read >= Granted(n)
            && (|job.request| > 7 ==> Granted(n) == 1))
      && (r.Collecting? ==>
            && n.delivered != [] && 7 < |a| == r.total && n.down.read >= Granted(n)
            && (|r.stored| - 6) % 7 == 0 && |r.stored| <= Filled(n.down.read - Granted(n))
            && (|r.stored| == Filled(n.down.read - Granted(n)) ==> r.stored <= a))
      && (r.Received? ==> n.delivered != [] && r.payload == a)
  }

  ghost predicate Safe(job: Job, n: Net) {
    && job.Valid() && Wf(n)
    && UpShape(job, n) && DownShape(job, n) && EcuShape(job, n) && M7Shape(job, n)
  }

  lemma InitSafe(job: Job, n: Net)
    requires job.Valid() && Init(job, n)
    ensures Safe(job, n)
  {
  }

  lemma UpLossSafe(job: Job, n: Net)
    requires Safe(job, n) && n.up.Unread()
    ensures Safe(job, n.(up := n.up.Skip()))
  {
    hide Octets;
  }

  lemma DownLossSafe(job: Job, n: Net)
    requires Safe(job, n) && n.down.Unread()
    ensures Safe(job, n.(down := n.down.Skip()))
  {
    hide Octets;
  }

  lemma M7ExpirySafe(job: Job, n: Net)
    requires Safe(job, n)
    ensures Safe(job, n.(m7 := Awaiting(Refused(-ETIMEDOUT))))
  {
  }

  lemma EcuExpirySafe(job: Job, n: Net)
    requires Safe(job, n) && n.ecu.Responding?
    ensures Safe(job, n.(ecu := Listening))
  {
  }

  lemma M7EmitSafe(job: Job, n: Net)
    requires Safe(job, n) && n.m7.Requesting? && n.m7.s.phase.Emit?
    ensures Safe(job, M7Step(job, n))
  {
    var n' := M7Step(job, n);
    assert n.delivered == [];
    assert n'.up.log[|n.up.log|] == FrameOf(n.m7.s, M7_LINK);
  }

  lemma M7FlowSafe(job: Job, n: Net)
    requires Safe(job, n) && n.m7.Requesting? && n.m7.s.phase.AwaitFlow? && n.down.Unread()
    ensures Safe(job, M7Step(job, n))
  {
    assert n.delivered == [];
    assert n.down.log[n.down.read] == FlowFrame(0, ECU_LINK);
  }

  lemma M7FirstChannels(job: Job, n: Net)
    requires Safe(job, n) && n.m7.Awaiting? && n.m7.r.AwaitFirst? && n.down.Unread()
    ensures n.delivered != []
    ensures UpShape(job, M7Step(job, n)) && DownShape(job, M7Step(job, n))
  {
  }

  lemma M7FirstSafe(job: Job, n: Net)
    requires Safe(job, n) && n.m7.Awaiting? && n.m7.r.AwaitFirst? && n.down.Unread()
    ensures Safe(job, M7Step(job, n))
  {
    var i := n.down.read - Granted(n);
    M7FirstChannels(job, n);
    FirstTracks(n.down.log[n.down.read], job.Response(), i, job.capacity);
    assert EcuShape(job, M7Step(job, n));
  }

  /** A message is completed only by its last frame, and only if none is missing. */
  lemma LastFill(p: Payload, filled: nat, i: nat)
    requires |p| > 7 && 1 <= i < FrameCount(p) && 6 <= filled <= Filled(i) && (filled - 6) % 7 == 0
    requires |p| - filled <= 7
    ensures filled == Filled(i) && i + 1 == FrameCount(p)
  {
    CountBounds(p);
  }

  /** One more consecutive frame at the M7: lost frames leave it behind for
      good, and without loss the stored octets stay a prefix. */
  lemma Collect(r: Receiver, f: CanFrame, a: Payload, i: nat)
    requires r.Collecting? && ReceiverValid(r) && 7 < |a| == r.total <= MAX_PAYLOAD
    requires 1 <= i < FrameCount(a) && f.dlc == 8 && f.data == Octets(a, i)
    requires (|r.stored| - 6) % 7 == 0 && |r.stored| <= Filled(i)
    requires |r.stored| == Filled(i) ==> r.stored <= a
    ensures
      var n := OnConsecutive(r, f);
      && (n.Received? ==> n.payload == a)
      && (n.Collecting? ==>
            && n.total == |a| && (|n.stored| - 6) % 7 == 0 && |n.stored| <= Filled(i + 1)
            && (|n.stored| == Filled(i + 1) ==> n.stored <= a))
  {
    if |a| - |r.stored| <= 7 {
      LastFill(a, |r.stored|, i);
    }
    ConsecutiveCarries(a, i);
  }

  lemma M7ConsecutiveSafe(job: Job, n: Net)
    requires Safe(job, n) && n.m7.Awaiting? && n.m7.r.Collecting? && n.down.Unread()
    ensures Safe(job, M7Step(job, n))
  {
    hide Octets, OnConsecutive, EcuOnFrame;
    Collect(n.m7.r, n.down.log[n.down.read], job.Response(), n.down.read - Granted(n));
    var n' := M7Step(job, n);
    assert n' == n.(m7 := Awaiting(OnConsecutive(n.m7.r, n.down.log[n.down.read])), down := n.down.Skip());
    assert UpShape(job, n') && DownShape(job, n') && EcuShape(job, n');
  }

  /** The same count at the ECU, for any frame of the request. */
  ghost predicate EcuCounts(rx: EcuRx, p: Payload, read: nat) {
    && rx.Valid()
    && (rx.active ==>
          && |p| > 7 && rx.total == |p| && rx.received <= Filled(read)
          && (rx.received == Filled(read) ==> rx.payload[..rx.received] <= p))
  }

  lemma EcuFirst(rx: EcuRx, f: CanFrame, p: Payload)
    requires rx.Valid() && 1 <= |p| <= MAX_PAYLOAD && f.dlc == 8 && f.data == Octets(p, 0)
    ensures
      var (rx', action) := EcuOnFrame(rx, f);
      if |p| <= 7 then action == Deliver(p) && rx' == rx
      else action == Flow(0) && rx'.active && EcuCounts(rx', p, 1)
  {
    if |p| <= 7 {
      assert f.data[1..1 + |p|] == p;
    } else {
      assert f.data[2..8] == p[..6];
    }
  }

  lemma EcuStoreCounts(rx: EcuRx, f: CanFrame, p: Payload, i: nat)
    requires EcuCounts(rx, p, i) && rx.active && 7 < |p| <= MAX_PAYLOAD && 1 <= i < FrameCount(p)
    requires f.data == Octets(p, i)
    ensures
      var rx' := EcuStore(rx, f);
      if rx'.received == rx'.total then rx'.payload[..rx'.total] == p && i + 1 == FrameCount(p)
      else EcuCounts(rx', p, i + 1)
  {
    ConsecutiveCarries(p, i);
    if |p| - rx.received <= 7 {
      LastFill(p, rx.received, i);
    }
    var rx' := EcuStore(rx, f);
    var n := Min(7, |p| - rx.received);
    assert rx'.payload[..rx'.received] == rx.payload[..rx.received] + f.data[1..1 + n];
  }

  lemma EcuNext(rx: EcuRx, f: CanFrame, p: Payload, i: nat)
    requires EcuCounts(rx, p, i) && 7 < |p| <= MAX_PAYLOAD && 1 <= i < FrameCount(p)
    requires f.data == Octets(p, i)
    ensures
      var (rx', action) := EcuOnFrame(rx, f);
      && (rx'.active ==> rx.active)
      && (if action == Nothing then EcuCounts(rx', p, i + 1)
          else action == Deliver(p) && !rx'.active && i + 1 == FrameCount(p))
      && (rx.active && rx.received == Filled(i) && action == Nothing ==> rx'.active && rx'.received == Filled(i + 1))
  {
    if rx.active {
      if rx.received == Filled(i) {
        assert f.Kind() == 2 && f.Low() == i % 16 == rx.next;
      }
      EcuStoreCounts(rx, f, p, i);
    }
  }

  lemma EcuDataSafe(job: Job, n: Net)
    requires Safe(job, n) && n.delivered == [] && n.up.Unread()
    ensures Safe(job, EcuStep(job, n))
  {
    hide Octets, EcuStore;
    var f := n.up.log[n.up.read];
    assert f.data == Octets(job.request, n.up.read);
    if n.up.read == 0 {
      EcuFirst(n.rx, f, job.request);
    } else {
      EcuNext(n.rx, f, job.request, n.up.read);
    }
  }

  lemma EcuFlowSafe(job: Job, n: Net)
    requires Safe(job, n) && n.delivered != [] && n.up.Unread()
    requires n.ecu.Listening? || n.ecu.t.phase.AwaitFlow?
    ensures Safe(job, EcuStep(job, n))
  {
    hide Octets;
    assert n.up.log[n.up.read].Kind() == 3;
  }

  lemma EcuEmitAppends(job: Job, n: Net)
    requires Safe(job, n) && n.ecu.Responding? && n.ecu.t.phase.Emit?
    ensures var f := FrameOf(n.ecu.t, ECU_LINK);
            && EcuStep(job, n).down == n.down.Put(f) && f.Kind() != 3 && f.dlc == 8
            && n.ecu.t.sent < FrameCount(job.Response()) && f.data == Octets(job.Response(), n.ecu.t.sent)
            && |n.down.log| == Granted(n) + n.ecu.t.sent
  {
  }

  lemma EcuEmitDown(job: Job, n: Net)
    requires Safe(job, n) && n.ecu.Responding? && n.ecu.t.phase.Emit?
    ensures Granted(EcuStep(job, n)) == Granted(n)
    ensures DownShape(job, EcuStep(job, n))
  {
    hide EcuStep, Octets, FrameOf, UpShape, EcuShape, M7Shape;
    EcuEmitAppends(job, n);
  }

  lemma EcuEmitSafe(job: Job, n: Net)
    requires Safe(job, n) && n.ecu.Responding? && n.ecu.t.phase.Emit?
    ensures Safe(job, EcuStep(job, n))
  {
    EcuEmitDown(job, n);
  }

  lemma StepSafe(job: Job, n: Net, n': Net)
    requires Safe(job, n) && (Step(job, n, n') || Fault(n, n'))
    ensures Safe(job, n')
  {
    hide UpShape, DownShape, M7Shape;
    if Fault(n, n') {
      if n.up.Unread() { UpLossSafe(job, n); }
      if n.down.Unread() { DownLossSafe(job, n); }
      if n.ecu.Responding? { EcuExpirySafe(job, n); }
      M7ExpirySafe(job, n);
    } else if M7Enabled(n) && n' == M7Step(job, n) {
      match n.m7
      case Requesting(s) => if s.phase.Emit? { M7EmitSafe(job, n); } else { M7FlowSafe(job, n); }
      case Awaiting(r) => if r.AwaitFirst? { M7FirstSafe(job, n); } else { M7ConsecutiveSafe(job, n); }
    } else {
      match n.ecu
      case Listening => if n.delivered == [] { EcuDataSafe(job, n); } else { EcuFlowSafe(job, n); }
      case Responding(t) => if t.phase.Emit? { EcuEmitSafe(job, n); } else { EcuFlowSafe(job, n); }
    }
  }

  ghost predicate LossyRun(job: Job, run: seq<Net>) {
    && run != [] && job.Valid() && Init(job, run[0])
    && forall i :: 0 <= i < |run| - 1 ==> Step(job, run[i], run[i + 1]) || Fault(run[i], run[i + 1])
  }

  lemma {:induction false} LossyRunSafe(job: Job, run: seq<Net>, k: nat)
    requires LossyRun(job, run) && k < |run|
    ensures Safe(job, run[k])
  {
    if k == 0 {
      InitSafe(job, run[0]);
    } else {
      LossyRunSafe(job, run, k - 1);
      StepSafe(job, run[k - 1], run[k]);
    }
  }

  /** Whatever is lost and whichever deadline passes, the request is processed
      at most once and unaltered, and a success at the M7 carries the response
      to it, after exactly one processing. */
  lemma {:induction false} LossyExchange(job: Job, run: seq<Net>, k: nat)
    requires LossyRun(job, run) && k < |run|
    ensures run[k].delivered == [] || run[k].delivered == [job.request]
    ensures run[k].m7.Awaiting? && run[k].m7.r.Received? ==>
              run[k].m7.r.payload == job.Response() && run[k].delivered == [job.request]
    ensures run[k].rx.active ==>
              && 6 <= run[k].rx.received < run[k].rx.total <= MAX_PAYLOAD
              && (run[k].rx.received - 6) % 7 == 0
              && run[k].rx.next == ((run[k].rx.received - 6) / 7 + 1) % 16
              && (Granted(run[k]) == 1 ==> run[k].rx.total == |job.request|)
  {
    LossyRunSafe(job, run, k);
  }

  // ---- Progress over a reliable channel ------------------------------------

  /** What also holds while nothing is lost: every reader is exactly where the
      frames it has accepted put it. */
  ghost predicate M7Exact(job: Job, n: Net) {
    var a := job.Response();
    var h := Granted(n);
    match n.m7
    case Requesting(s) =>
      && !s.phase.Ended?
      && n.down.read == (if s.phase.Emit? && s.sent >= 1 then 1 else 0)
    case Awaiting(r) =>
      && (r.AwaitFirst? ==> n.down.read == h)
      && (r.Collecting? ==>
            && |a| <= job.capacity && |n.up.log| == FrameCount(job.request) + 1
            && |r.stored| == Filled(n.down.read - h) && r.expected == (n.down.read - h) % 16)
      && (r.Received? ==>
            && |a| <= job.capacity && n.down.read == h + FrameCount(a)
            && (|a| > 7 ==> |n.up.log| == FrameCount(job.request) + 1))
      && (r.Refused? ==>
            && r.error == -EMSGSIZE && |a| > job.capacity && n.delivered != [] && n.down.read == h + 1
            && (|a| > 7 ==> |n.up.log| == FrameCount(job.request) + 1))
  }

  ghost predicate EcuExact(job: Job, n: Net) {
    var p := job.request;
    var a := job.Response();
    var h := Granted(n);
    var q := FrameCount(p);
    && (|n.up.log| == q + 1 ==> |a| > 7 && n.up.log[q] == FlowFrame(if |a| <= job.capacity then 0 else 2, M7_LINK))
    && if n.delivered == [] then
         && h == (if n.up.read >= 1 then 1 else 0)
         && (h == 1 ==> n.rx.active && n.rx.received == Filled(n.up.read))
       else
         match n.ecu
         case Responding(t) =>
           if t.phase.Emit? && t.sent >= 1 then n.up.read == q + 1 && |a| <= job.capacity else n.up.read == q
         case Listening =>
           if |a| > job.capacity && |a| > 7 then |n.down.log| == h + 1 && n.up.read == q + 1
           else |n.down.log| == h + FrameCount(a)
  }

  ghost predicate Exact(job: Job, n: Net) {
    Safe(job, n) && M7Exact(job, n) && EcuExact(job, n)
  }

  ghost predicate Done(job: Job, n: Net) {
    && n.m7 == Awaiting(if |job.Response()| <= job.capacity then Received(job.Response()) else Refused(-EMSGSIZE))
    && n.ecu == Listening && (|job.request| > 7 ==> !n.rx.active) && n.delivered == [job.request]
    && !n.up.Unread() && !n.down.Unread()
  }

  /** While nothing is lost, some station can act until the exchange is over. */
  lemma StuckIsDone(job: Job, n: Net)
    requires Exact(job, n) && Final(n)
    ensures Done(job, n)
  {
    if |job.request| > 7 { CountBounds(job.request); }
    if |job.Response()| > 7 { CountBounds(job.Response()); }
  }

  lemma InitExact(job: Job, n: Net)
    requires job.Valid() && Init(job, n)
    ensures Exact(job, n)
  {
  }

  lemma M7EmitExact(job: Job, n: Net)
    requires Exact(job, n) && n.m7.Requesting? && n.m7.s.phase.Emit?
    ensures Exact(job, M7Step(job, n))
  {
    M7EmitSafe(job, n);
  }

  lemma M7FlowExact(job: Job, n: Net)
    requires Exact(job, n) && n.m7.Requesting? && n.m7.s.phase.AwaitFlow? && n.down.Unread()
    ensures Exact(job, M7Step(job, n))
  {
    M7FlowSafe(job, n);
    assert n.down.log[n.down.read] == FlowFrame(0, ECU_LINK);
  }

  lemma M7FirstExact(job: Job, n: Net)
    requires Exact(job, n) && n.m7.Awaiting? && n.m7.r.AwaitFirst? && n.down.Unread()
    ensures Exact(job, M7Step(job, n))
  {
    M7FirstSafe(job, n);
    var a := job.Response();
    FirstTracks(n.down.log[n.down.read], a, 0, job.capacity);
  }

  lemma M7ConsecutiveExact(job: Job, n: Net)
    requires Exact(job, n) && n.m7.Awaiting? && n.m7.r.Collecting? && n.down.Unread()
    ensures Exact(job, M7Step(job, n))
  {
    M7ConsecutiveSafe(job, n);
    var a := job.Response();
    var i := n.down.read - Granted(n);
    ConsecutiveCarries(a, i);
    NextModulo(i);
  }

  lemma EcuDataExact(job: Job, n: Net)
    requires Exact(job, n) && n.delivered == [] && n.up.Unread()
    ensures Exact(job, EcuStep(job, n))
  {
    EcuDataSafe(job, n);
    var f := n.up.log[n.up.read];
    if n.up.read == 0 {
      EcuFirst(n.rx, f, job.request);
    } else {
      EcuNext(n.rx, f, job.request, n.up.read);
    }
  }

  lemma EcuFlowExact(job: Job, n: Net)
    requires Exact(job, n) && n.delivered != [] && n.up.Unread()
    requires n.ecu.Listening? || n.ecu.t.phase.AwaitFlow?
    ensures Exact(job, EcuStep(job, n))
  {
    EcuFlowSafe(job, n);
  }

  lemma EcuEmitExact(job: Job, n: Net)
    requires Exact(job, n) && n.ecu.Responding? && n.ecu.t.phase.Emit?
    ensures Exact(job, EcuStep(job, n))
  {
    EcuEmitSafe(job, n);
  }

  /** Twice the frames still to be put on the bus, plus those not yet read. */
  ghost function Rank(job: Job, n: Net): int {
    2 * (FrameCount(job.request) + FrameCount(job.Response()) + 2 - |n.up.log| - |n.down.log|)
    + (|n.up.log| - n.up.read) + (|n.down.log| - n.down.read)
  }

  lemma {:induction false} StepExact(job: Job, n: Net, n': Net)
    requires Exact(job, n) && Step(job, n, n')
    ensures Exact(job, n')
  {
    hide UpShape, DownShape, M7Shape;
    if M7Enabled(n) && n' == M7Step(job, n) {
      match n.m7
      case Requesting(s) => if s.phase.Emit? { M7EmitExact(job, n); } else { M7FlowExact(job, n); }
      case Awaiting(r) => if r.AwaitFirst? { M7FirstExact(job, n); } else { M7ConsecutiveExact(job, n); }
    } else {
      match n.ecu
      case Listening => if n.delivered == [] { EcuDataExact(job, n); } else { EcuFlowExact(job, n); }
      case Responding(t) => if t.phase.Emit? { EcuEmitExact(job, n); } else { EcuFlowExact(job, n); }
    }
  }

  lemma StepDescends(job: Job, n: Net, n': Net)
    requires Step(job, n, n')
    ensures Rank(job, n') < Rank(job, n)
  {
  }

  ghost predicate ReliableRun(job: Job, run: seq<Net>) {
    && run != [] && job.Valid() && Init(job, run[0])
    && forall i :: 0 <= i < |run| - 1 ==> Step(job, run[i], run[i + 1])
  }

  lemma {:induction false} RunStepExact(job: Job, run: seq<Net>, k: nat)
    requires ReliableRun(job, run) && 0 < k < |run| && Exact(job, run[k - 1])
    ensures Exact(job, run[k])
  {
    var n, n' := run[k - 1], run[k];
    assert Step(job, n, n');
    StepExact(job, n, n');
  }

  lemma {:induction false} ReliableRunExact(job: Job, run: seq<Net>, k: nat)
    requires ReliableRun(job, run) && k < |run|
    ensures Exact(job, run[k])
  {
    if k == 0 {
      InitExact(job, run[0]);
    } else {
      ReliableRunExact(job, run, k - 1);
      RunStepExact(job, run, k);
    }
  }

  lemma {:induction false} ReliableRunDescends(job: Job, run: seq<Net>, k: nat)
    requires ReliableRun(job, run) && k < |run|
    ensures Rank(job, run[k]) <= Rank(job, run[0]) - k
  {
    if k > 0 {
      ReliableRunDescends(job, run, k - 1);
      StepDescends(job, run[k - 1], run[k]);
    }
  }

  lemma RankBound(job: Job, n: Net)
    requires Safe(job, n)
    ensures 0 <= Rank(job, n)
  {
  }

  /** Without loss every interleaving is finite and can only stop with the
      request processed exactly once, unaltered, and the M7 holding the response
      if it fits its buffer, or the size error if it does not.  Along the way a
      reception that the ECU has granted holds a prefix of the request. */
  lemma {:induction false} ReliableExchange(job: Job, run: seq<Net>)
    requires ReliableRun(job, run)
    ensures |run| <= 2 * (FrameCount(job.request) + FrameCount(job.Response()) + 2) + 1
    ensures
      var last := run[|run| - 1];
      && last.rx.Valid()
      && (last.rx.active && Granted(last) == 1 ==> last.rx.payload[..last.rx.received] <= job.request)
      && (Final(last) ==> Done(job, last))
  {
    ReliableRunExact(job, run, |run| - 1);
    ReliableRunDescends(job, run, |run| - 1);
    var last := run[|run| - 1];
    RankBound(job, last);
    if Final(last) {
      StuckIsDone(job, last);
    }
  }
}
