/** One live subscription under any interleaving of the daemon and any number
    of receiving tasks. */
module RouterRace {
  import opened Bytes
  import opened CanBus
  import opened IsotpSpec
  import opened IsotpChannel
  import opened RouterSpec

  /** `passed` are the receivers that got past the semaphore but do not yet
      hold the lock. */
  datatype State = State(log: QueueLog, semaphore: nat, waiting: set<nat>, passed: set<nat>)

  datatype Event =
    | Arrive(frame: CanFrame)
    | Enter(task: nat)
    | Pass(task: nat)
    | Expire(task: nat)
    | Take(task: nat)

  const IDLE := State(EMPTY, 0, {}, {})

  predicate Enabled(s: State, e: Event) {
    match e
    case Arrive(_) => true
    case Enter(t) => t !in s.waiting && t !in s.passed
    case Pass(t) => t in s.waiting && s.semaphore > 0
    case Expire(t) => t in s.waiting
    case Take(t) => t in s.passed
  }

  /** The critical sections of dispatch and receive are atomic.  A receiver that
      finds the queue empty under the lock gives up. */
  function Step(s: State, e: Event): State
    requires Enabled(s, e)
  {
    match e
    case Arrive(f) =>
      s.(log := s.log.Offer(f),
         semaphore := if |s.log.Queued()| == QUEUE_DEPTH then s.semaphore else s.semaphore + 1)
    case Enter(t) => s.(waiting := s.waiting + {t})
    case Pass(t) => s.(waiting := s.waiting - {t}, passed := s.passed + {t}, semaphore := s.semaphore - 1)
    case Expire(t) => s.(waiting := s.waiting - {t})
    case Take(t) =>
      s.(passed := s.passed - {t}, log := if s.log.Queued() == [] then s.log else s.log.Take())
  }

  ghost predicate Inv(s: State) {
    && |s.log.Queued()| == s.semaphore + |s.passed| <= QUEUE_DEPTH
    && s.waiting !! s.passed
  }

  lemma StepKeepsInv(s: State, e: Event)
    requires Inv(s) && Enabled(s, e)
    ensures Inv(Step(s, e))
  {
    match e
    case Take(t) => assert |s.passed - {t}| == |s.passed| - 1;
    case _ =>
  }

  /** Any history; an event that is not possible when its turn comes does not happen. */
  datatype History = Boot | Then(before: History, event: Event)

  function After(h: History): State {
    match h
    case Boot => IDLE
    case Then(before, e) => var s := After(before); if Enabled(s, e) then Step(s, e) else s
  }

  /** In every reachable state the queue length is the semaphore plus the
      receivers on their way to the lock, so none of them finds it empty. */
  lemma {:induction false} SemaphoreCountsQueue(h: History)
    ensures Inv(After(h))
    ensures After(h).passed != {} ==> After(h).log.Queued() != []
  {
    match h
    case Boot =>
    case Then(before, e) =>
      SemaphoreCountsQueue(before);
      if Enabled(After(before), e) {
        StepKeepsInv(After(before), e);
      }
      if After(h).passed != {} {
        var t :| t in After(h).passed;
        assert |After(h).passed - {t}| == |After(h).passed| - 1;
      }
  }

  /** A waiting receiver gets past the semaphore exactly if there are more frames
      than receivers already on their way, so none waits beside a free frame. */
  lemma PassesExactly(h: History, t: nat)
    ensures Enabled(After(h), Pass(t)) <==>
              t in After(h).waiting && |After(h).log.Queued()| > |After(h).passed|
  {
    SemaphoreCountsQueue(h);
  }

  /** The frames that arrived. */
  function Arrived(h: History): seq<CanFrame> {
    match h
    case Boot => []
    case Then(before, e) => Arrived(before) + if e.Arrive? then [e.frame] else []
  }

  /** What the receivers got: each the oldest frame of the queue, unless it waited
      in vain. */
  function Got(h: History): seq<CanFrame> {
    match h
    case Boot => []
    case Then(before, e) =>
      Got(before) +
      if e.Take? && e.task in After(before).passed && After(before).log.Queued() != []
      then [After(before).log.Queued()[0]] else []
  }

  lemma NothingTaken()
    ensures EMPTY.Taken() == []
  {
  }

  lemma OfferTakesNothing(log: QueueLog, f: CanFrame)
    ensures log.Offer(f).Taken() == log.Taken() && log.Offer(f).arrived == log.arrived + [f]
  {
    assert log.Offer(f).Taken() == log.Taken();
  }

  lemma TakeGivesOldest(log: QueueLog)
    requires log.Queued() != []
    ensures log.Take().Taken() == log.Taken() + [log.Queued()[0]] && log.Take().arrived == log.arrived
  {
    assert log.Take().Taken() == log.Taken() + [log.Queued()[0]];
  }

  lemma StepHandsOut(s: State, e: Event)
    requires Enabled(s, e)
    ensures
      var log := Step(s, e).log;
      && log.arrived == s.log.arrived + (if e.Arrive? then [e.frame] else [])
      && log.Taken() == s.log.Taken() + if e.Take? && s.log.Queued() != [] then [s.log.Queued()[0]] else []
  {
    if e.Arrive? {
      OfferTakesNothing(s.log, e.frame);
    } else if e.Take? && s.log.Queued() != [] {
      TakeGivesOldest(s.log);
    }
  }

  /** In every interleaving the receivers together get exactly the frames that the
      log says were taken from those that arrived. */
  lemma {:induction false} EveryFrameOnce(h: History)
    ensures After(h).log.arrived == Arrived(h) && After(h).log.Taken() == Got(h)
  {
    hide Step, Log.Taken;
    match h
    case Boot => NothingTaken();
    case Then(before, e) =>
      EveryFrameOnce(before);
      if Enabled(After(before), e) {
        StepHandsOut(After(before), e);
      }
  }

  /** Overflow is an in-order lossy channel: if the frames that arrived are
      those of one message in order, a reception fed from the queue reports
      success only with that message. */
  lemma OverflowFeedsIsotp(log: QueueLog, ix: seq<nat>, p: Payload, credits: nat, trace: Trace,
                           capacity: nat, l: Link, rxError: int, txError: int)
    requires Carries(log.arrived, ix, p)
    ensures
      var y := Reception(ReceiveRun(AwaitFirst, log.Taken(), credits, trace), capacity, l, rxError, txError);
      y.r.Received? ==> y.r.payload == p
  {
    var taken := log.Taken();
    var jx: seq<nat> := seq(|taken|, i requires 0 <= i < |taken| => ix[log.takenAt[i]]);
    forall i, j | 0 <= i < j < |jx| ensures jx[i] <= jx[j] {
      assert log.takenAt[i] < log.takenAt[j];
    }
    assert Carries(taken, jx, p);
    NoWrongPayload(taken, jx, p, credits, trace, capacity, l, rxError, txError);
  }
}
