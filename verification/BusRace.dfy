/** One queue of the message bus under any interleaving of pushers, poppers,
    time-outs, spurious wake-ups and the shutdown wake-up, at the grain of the
    lock and the two condition variables. */
module BusRace {
  import opened MessageQueue

  type Message = nat

  /** Wanting the lock; holding it before the test of the queue; holding it
      after a failed test, about to wait; waiting; signalled and wanting the
      lock again; timed out and wanting the lock again. */
  datatype Place = AtLock | Testing | Committed | Asleep | Signalled | Expired

  datatype Thread =
    | Pusher(msg: Message, patient: bool, at: Place)
    | Popper(at: Place)
    | Waker(at: Place)

  /** `pushed` and `popped` list the successful operations in lock order;
      `lostOnPoppers` and `lostOnPushers` count the wake-ups that reached a thread
      whose timed wait expired all the same. */
  datatype State = State(
    holder: set<nat>,
    threads: map<nat, Thread>,
    queue: seq<Message>,
    pushed: seq<Message>,
    popped: seq<Message>,
    shutdown: bool,
    awoken: bool,
    lostOnPoppers: nat,
    lostOnPushers: nat)

  const BOOTED := State({}, map[], [], [], [], false, false, 0, 0)

  datatype Event =
    | Enter(task: nat, thread: Thread)
    | Acquire(task: nat)
    | Act(task: nat, signalled: nat)
    | TimeOut(task: nat)
    | Spurious(task: nat)

  function With(s: State, t: nat, th: Thread): State {
    s.(threads := s.threads[t := th])
  }

  function Without(s: State, t: nat): State {
    s.(threads := map u | u in s.threads && u != t :: s.threads[u])
  }

  predicate Sleeps(s: State, t: nat, popper: bool) {
    t in s.threads && s.threads[t].at == Asleep && s.threads[t].Popper? == popper && !s.threads[t].Waker?
  }

  /** A signal reaches the chosen sleeper of the right kind, if any sleeps. */
  predicate SignalOk(s: State, popper: bool, u: nat) {
    Sleeps(s, u, popper) || forall v :: v in s.threads ==> !Sleeps(s, v, popper)
  }

  function Signal(s: State, popper: bool, u: nat): State {
    if Sleeps(s, u, popper) then With(s, u, s.threads[u].(at := Signalled)) else s
  }

  function Broadcast(s: State): State {
    s.(threads := map u | u in s.threads ::
         if s.threads[u].Popper? && s.threads[u].at == Asleep then Popper(Signalled) else s.threads[u])
  }

  predicate Enabled(s: State, e: Event) {
    match e
    case Enter(t, th) => t !in s.threads && th.at == AtLock
    case Acquire(t) => t in s.threads && s.holder == {} && s.threads[t].at in {AtLock, Signalled, Expired}
    case Act(t, u) =>
      && t in s.threads && t in s.holder
      && (s.threads[t].Pusher? && |s.queue| < QUEUE_LEN ==> SignalOk(s, true, u))
      && (s.threads[t].Popper? && s.queue != [] ==> SignalOk(s, false, u))
    case TimeOut(t) => t in s.threads && (s.threads[t].at == Asleep || s.threads[t].at == Signalled)
    case Spurious(t) => t in s.threads && s.threads[t].at == Asleep
  }

  /** What thread `t` does while it holds the lock. */
  function Critical(s: State, t: nat, u: nat): State
    requires t in s.threads
  {
    var free := s.(holder := {});
    match s.threads[t]
    case Pusher(msg, patient, at) =>
      if |s.queue| < QUEUE_LEN then
        Signal(Without(free, t), true, u).(queue := s.queue + [msg], pushed := s.pushed + [msg])
      else if patient then With(free, t, Pusher(msg, patient, Asleep))
      else Without(free, t)
    case Popper(at) =>
      if at == Committed then With(free, t, Popper(Asleep))
      else if s.queue != [] then
        Signal(Without(free, t), false, u).(queue := s.queue[1..], popped := s.popped + [s.queue[0]])
      else if s.shutdown then Without(free, t)
      else With(s, t, Popper(Committed))
    case Waker(at) => Broadcast(Without(free, t)).(awoken := true)
  }

  /** A timed wait may expire although a wake-up has reached it; its thread then
      returns without another look at the queue. */
  function Expire(s: State, t: nat): State
    requires t in s.threads
  {
    var th := s.threads[t];
    var s' := With(s, t, th.(at := Expired));
    if th.at != Signalled then s'
    else if th.Popper? then s'.(lostOnPoppers := s.lostOnPoppers + 1)
    else s'.(lostOnPushers := s.lostOnPushers + 1)
  }

  /** The shutdown flag is set without the lock, before the waker asks for it. */
  function Step(s: State, e: Event): State
    requires Enabled(s, e)
  {
    match e
    case Enter(t, th) => With(s, t, th).(shutdown := s.shutdown || th.Waker?)
    case Acquire(t) =>
      if s.threads[t].at == Expired then Without(s, t)
      else With(s, t, s.threads[t].(at := Testing)).(holder := {t})
    case Act(t, u) => Critical(s, t, u)
    case TimeOut(t) => Expire(s, t)
    case Spurious(t) => With(s, t, s.threads[t].(at := Signalled))
  }

  // ---- Conservation --------------------------------------------------------

  ghost predicate Conserved(s: State) {
    s.popped + s.queue == s.pushed && |s.queue| <= QUEUE_LEN
  }

  lemma StepConserves(s: State, e: Event)
    requires Conserved(s) && Enabled(s, e)
    ensures Conserved(Step(s, e))
  {
    if e.Act? && s.threads[e.task].Popper? && s.queue != [] {
      assert s.popped + s.queue == s.popped + [s.queue[0]] + s.queue[1..];
    }
  }

  // ---- Wake-ups ------------------------------------------------------------

  predicate IsWaiting(th: Thread, popper: bool) {
    th.Popper? == popper && !th.Waker? && th.at in {Asleep, Committed}
  }

  predicate IsComing(th: Thread, popper: bool) {
    th.Popper? == popper && !th.Waker? && th.at in {Signalled, Testing}
  }

  /** Poppers (or pushers) that wait or are about to. */
  ghost function Waiting(s: State, popper: bool): set<nat> {
    set t | t in s.threads && IsWaiting(s.threads[t], popper)
  }

  /** Poppers (or pushers) that will test the queue without further signal. */
  ghost function Coming(s: State, popper: bool): set<nat> {
    set t | t in s.threads && IsComing(s.threads[t], popper)
  }

  ghost predicate LockOk(s: State) {
    && (forall t, u :: t in s.holder && u in s.holder ==> t == u)
    && (forall t :: t in s.holder ==> t in s.threads && s.threads[t].at in {Testing, Committed})
    && (forall t :: t in s.threads && s.threads[t].at in {Testing, Committed} ==> t in s.holder)
    && (forall t :: t in s.threads && s.threads[t].at == Committed ==> s.threads[t].Popper? && s.queue == [])
    && (forall t :: t in s.threads && s.threads[t].Waker? ==> s.shutdown && s.threads[t].at in {AtLock, Testing})
  }

  /** As long as a popper waits, every queued message has a popper on its way to
      it or a wake-up that was lost on one; as long as a pusher waits, so has every
      free slot. */
  ghost predicate NoneLost(s: State) {
    && (Waiting(s, true) != {} ==> |s.queue| <= |Coming(s, true)| + s.lostOnPoppers)
    && (Waiting(s, false) != {} ==> QUEUE_LEN - |s.queue| <= |Coming(s, false)| + s.lostOnPushers)
  }

  ghost predicate AwokenOk(s: State) {
    s.awoken ==> s.shutdown && Waiting(s, true) == {}
  }

  ghost predicate Inv(s: State) {
    Conserved(s) && LockOk(s) && NoneLost(s) && AwokenOk(s)
  }

  /** The threads other than those in `changed` are as before. */
  ghost predicate Same(s: State, s': State, changed: set<nat>) {
    forall u :: u !in changed ==>
      (u in s.threads <==> u in s'.threads) && (u in s.threads ==> s'.threads[u] == s.threads[u])
  }

  lemma SetsAfter(s: State, s': State, t: nat, popper: bool)
    requires Same(s, s', {t})
    ensures Coming(s', popper) - {t} == Coming(s, popper) - {t}
    ensures Waiting(s', popper) - {t} == Waiting(s, popper) - {t}
  {
    forall u | u != t
      ensures u in Coming(s', popper) <==> u in Coming(s, popper)
      ensures u in Waiting(s', popper) <==> u in Waiting(s, popper)
    {
      assert u in s'.threads <==> u in s.threads;
    }
  }

  lemma CountsAfter(s: State, s': State, t: nat, popper: bool)
    requires Same(s, s', {t})
    ensures Coming(s', popper) - {t} == Coming(s, popper) - {t}
    ensures Waiting(s', popper) - {t} == Waiting(s, popper) - {t}
    ensures |Coming(s', popper)| == |Coming(s, popper)|
              + (if t in Coming(s', popper) then 1 else 0) - (if t in Coming(s, popper) then 1 else 0)
  {
    SetsAfter(s, s', t, popper);
    CountWithout(Coming(s, popper), t);
    CountWithout(Coming(s', popper), t);
  }

  lemma CountWithout(s: set<nat>, t: nat)
    ensures |s - {t}| == |s| - (if t in s then 1 else 0)
  {
    if t !in s {
      assert s - {t} == s;
    }
  }

  lemma SignalCounts(s: State, popper: bool, u: nat)
    requires SignalOk(s, popper, u)
    requires forall v :: v in s.threads ==> s.threads[v].at != Committed
    ensures var s' := Signal(s, popper, u);
            && (Waiting(s, popper) != {} ==> |Coming(s', popper)| == |Coming(s, popper)| + 1)
            && (Waiting(s, popper) == {} ==> s' == s)
            && Waiting(s', popper) <= Waiting(s, popper)
            && Waiting(s', !popper) == Waiting(s, !popper) && Coming(s', !popper) == Coming(s, !popper)
  {
    var s' := Signal(s, popper, u);
    if Sleeps(s, u, popper) {
      assert u in Waiting(s, popper);
      CountsAfter(s, s', u, popper);
      CountsAfter(s, s', u, !popper);
    } else {
      assert Waiting(s, popper) == {};
    }
  }

  lemma EnterKeepsInv(s: State, t: nat, th: Thread)
    requires Inv(s) && Enabled(s, Enter(t, th))
    ensures Inv(Step(s, Enter(t, th)))
  {
    CountsAfter(s, Step(s, Enter(t, th)), t, true);
    CountsAfter(s, Step(s, Enter(t, th)), t, false);
  }

  lemma AcquireKeepsLock(s: State, t: nat)
    requires Inv(s) && Enabled(s, Acquire(t))
    ensures LockOk(Step(s, Acquire(t)))
  {
  }

  lemma AcquireKeepsWakeups(s: State, t: nat)
    requires Inv(s) && Enabled(s, Acquire(t))
    ensures NoneLost(Step(s, Acquire(t))) && AwokenOk(Step(s, Acquire(t)))
  {
    CountsAfter(s, Step(s, Acquire(t)), t, true);
    CountsAfter(s, Step(s, Acquire(t)), t, false);
  }

  lemma WakeKeepsLock(s: State, t: nat)
    requires Inv(s) && t in s.threads && s.threads[t].at == Asleep
    ensures LockOk(With(s, t, s.threads[t].(at := Signalled)))
  {
  }

  lemma WakeKeepsWakeups(s: State, t: nat)
    requires Inv(s) && t in s.threads && s.threads[t].at == Asleep
    ensures NoneLost(With(s, t, s.threads[t].(at := Signalled)))
    ensures AwokenOk(With(s, t, s.threads[t].(at := Signalled)))
  {
    var s' := With(s, t, s.threads[t].(at := Signalled));
    CountsAfter(s, s', t, true);
    CountsAfter(s, s', t, false);
  }

  lemma WakeKeepsInv(s: State, t: nat)
    requires Inv(s) && t in s.threads && s.threads[t].at == Asleep
    ensures Inv(With(s, t, s.threads[t].(at := Signalled)))
  {
    WakeKeepsLock(s, t);
    WakeKeepsWakeups(s, t);
  }

  lemma ExpireKeepsLock(s: State, t: nat)
    requires Inv(s) && Enabled(s, TimeOut(t))
    ensures LockOk(Expire(s, t))
  {
  }

  lemma ExpireKeepsWakeups(s: State, t: nat)
    requires Inv(s) && Enabled(s, TimeOut(t))
    ensures NoneLost(Expire(s, t)) && AwokenOk(Expire(s, t))
  {
    CountsAfter(s, Expire(s, t), t, true);
    CountsAfter(s, Expire(s, t), t, false);
  }

  lemma PushKeepsLock(s: State, t: nat, u: nat)
    requires Inv(s) && Enabled(s, Act(t, u)) && s.threads[t].Pusher?
    ensures LockOk(Critical(s, t, u))
  {
  }

  lemma PopKeepsLock(s: State, t: nat, u: nat)
    requires Inv(s) && Enabled(s, Act(t, u)) && s.threads[t].Popper?
    ensures LockOk(Critical(s, t, u))
  {
  }

  /** A push takes a pusher off the free slots and sends a popper to the message. */
  lemma PushKeepsWakeups(s: State, t: nat, u: nat)
    requires Inv(s) && Enabled(s, Act(t, u)) && s.threads[t].Pusher?
    ensures NoneLost(Critical(s, t, u)) && AwokenOk(Critical(s, t, u))
  {
    var s' := Critical(s, t, u);
    if |s.queue| < QUEUE_LEN {
      var left := Without(s.(holder := {}), t);
      CountsAfter(s, left, t, true);
      CountsAfter(s, left, t, false);
      SignalCounts(left, true, u);
    } else {
      CountsAfter(s, s', t, true);
      CountsAfter(s, s', t, false);
    }
  }

  /** A pop takes a popper off the messages and sends a pusher to the free slot. */
  lemma PopKeepsWakeups(s: State, t: nat, u: nat)
    requires Inv(s) && Enabled(s, Act(t, u)) && s.threads[t].Popper?
    ensures NoneLost(Critical(s, t, u)) && AwokenOk(Critical(s, t, u))
  {
    var s' := Critical(s, t, u);
    if s.threads[t].at == Testing && s.queue != [] {
      var left := Without(s.(holder := {}), t);
      CountsAfter(s, left, t, true);
      CountsAfter(s, left, t, false);
      SignalCounts(left, false, u);
    } else {
      CountsAfter(s, s', t, true);
      CountsAfter(s, s', t, false);
    }
  }

  lemma BroadcastKeepsInv(s: State, t: nat, u: nat)
    requires Inv(s) && Enabled(s, Act(t, u)) && s.threads[t].Waker?
    ensures Inv(Critical(s, t, u))
  {
    var s' := Critical(s, t, u);
    assert Waiting(s', true) == {};
    assert Waiting(s', false) == Waiting(s, false);
    assert Coming(s', false) == Coming(s, false);
  }

  lemma StepKeepsInv(s: State, e: Event)
    requires Inv(s) && Enabled(s, e)
    ensures Inv(Step(s, e))
  {
    StepConserves(s, e);
    match e
    case Enter(t, th) => EnterKeepsInv(s, t, th);
    case Acquire(t) => AcquireKeepsLock(s, t); AcquireKeepsWakeups(s, t);
    case Act(t, u) =>
      if s.threads[t].Pusher? {
        PushKeepsLock(s, t, u);
        PushKeepsWakeups(s, t, u);
      } else if s.threads[t].Popper? {
        PopKeepsLock(s, t, u);
        PopKeepsWakeups(s, t, u);
      } else {
        BroadcastKeepsInv(s, t, u);
      }
    case TimeOut(t) => ExpireKeepsLock(s, t); ExpireKeepsWakeups(s, t);
    case Spurious(t) => WakeKeepsInv(s, t);
  }

  // ---- All interleavings ---------------------------------------------------

  /** Any history; an event that is not possible when its turn comes does not happen. */
  datatype History = Boot | Then(before: History, event: Event)

  function After(h: History): State {
    match h
    case Boot => BOOTED
    case Then(before, e) => var s := After(before); if Enabled(s, e) then Step(s, e) else s
  }

  lemma {:induction false} AlwaysInv(h: History)
    ensures Inv(After(h))
  {
    match h
    case Boot =>
    case Then(before, e) =>
      AlwaysInv(before);
      if Enabled(After(before), e) {
        StepKeepsInv(After(before), e);
      }
  }

  /** Popped messages followed by queued ones are the pushed ones, in lock order. */
  lemma {:induction false} FifoDelivery(h: History)
    ensures After(h).popped + After(h).queue == After(h).pushed
    ensures |After(h).queue| <= QUEUE_LEN
  {
    AlwaysInv(h);
  }

  /** No wake-up is lost but on a thread whose timed wait expires although it was
      woken: with a message queued, or a slot free, no popper, or pusher, waits
      unless enough others are already on their way or were lost in this way. */
  lemma {:induction false} NoLostWakeup(h: History)
    ensures
      var s := After(h);
      && (Waiting(s, true) != {} ==> |s.queue| <= |Coming(s, true)| + s.lostOnPoppers)
      && (Waiting(s, false) != {} ==> QUEUE_LEN - |s.queue| <= |Coming(s, false)| + s.lostOnPushers)
  {
    AlwaysInv(h);
  }

  /** Once the shutdown wake-up has been delivered no popper waits, then or at
      any later time. */
  lemma {:induction false} NobodySleepsAfterWakeup(h: History, t: nat)
    requires After(h).awoken && t in After(h).threads && After(h).threads[t].Popper?
    ensures After(h).threads[t].at != Asleep && After(h).threads[t].at != Committed
  {
    AlwaysInv(h);
    var s := After(h);
    assert t !in Waiting(s, true);
  }

  /** An event changes the queue only by a push with room or a pop of the oldest
      message, and then one message enters or leaves the log with it; a pop
      under the lock succeeds whenever a message is queued, shutdown or not. */
  lemma OnlyPushAndPop(s: State, e: Event)
    requires Inv(s) && Enabled(s, e)
    ensures
      var s' := Step(s, e);
      || (s'.queue == s.queue && s'.pushed == s.pushed && s'.popped == s.popped)
      || (&& e.Act? && s.threads[e.task].Pusher? && |s.queue| < QUEUE_LEN && s'.popped == s.popped
          && s'.queue == s.queue + [s.threads[e.task].msg] && s'.pushed == s.pushed + [s.threads[e.task].msg])
      || (&& e.Act? && s.threads[e.task].Popper? && s.queue != [] && s'.pushed == s.pushed
          && s'.queue == s.queue[1..] && s'.popped == s.popped + [s.queue[0]])
    ensures e.Act? && s.threads[e.task].Popper? && s.queue != [] ==> Step(s, e).queue == s.queue[1..]
    ensures e.Act? && s.threads[e.task].Pusher? && |s.queue| < QUEUE_LEN ==>
              Step(s, e).queue == s.queue + [s.threads[e.task].msg]
  {
  }

  // ---- Who waits and who leaves --------------------------------------------

  /** A thread keeps its kind, its message and its patience as long as it stays. */
  predicate SameCall(a: Thread, b: Thread) {
    match a
    case Pusher(msg, patient, _) => b.Pusher? && b.msg == msg && b.patient == patient
    case Popper(_) => b.Popper?
    case Waker(_) => b.Waker?
  }

  ghost predicate ImpatientNeverWait(s: State) {
    forall t :: t in s.threads && s.threads[t].Pusher? && !s.threads[t].patient ==> s.threads[t].at in {AtLock, Testing}
  }

  lemma StepKeepsImpatient(s: State, e: Event)
    requires Inv(s) && ImpatientNeverWait(s) && Enabled(s, e)
    ensures ImpatientNeverWait(Step(s, e))
  {
  }

  /** Over every history a pusher without a time-out never waits. */
  lemma {:induction false} ImpatientAlways(h: History)
    ensures ImpatientNeverWait(After(h))
  {
    match h
    case Boot =>
    case Then(before, e) =>
      ImpatientAlways(before);
      AlwaysInv(before);
      if Enabled(After(before), e) {
        StepKeepsImpatient(After(before), e);
      }
  }

  /** What a pusher leaves with: its own message appended; or nothing, its timed
      wait having expired, or, without a time-out, the queue being full. */
  ghost predicate PusherDone(s: State, s': State, th: Thread)
    requires th.Pusher?
  {
    || (s'.pushed == s.pushed + [th.msg] && s'.queue == s.queue + [th.msg] && s'.popped == s.popped)
    || (th.at == Expired && th.patient && s'.queue == s.queue && s'.pushed == s.pushed)
    || (!th.patient && |s.queue| == 16 && s'.queue == s.queue && s'.pushed == s.pushed && s'.popped == s.popped)
  }

  /** What a popper leaves with: the oldest message; or nothing, its timed wait
      having expired, or at shutdown, the queue being empty. */
  ghost predicate PopperDone(s: State, s': State, th: Thread) {
    || (s.queue != [] && s'.popped == s.popped + [s.queue[0]] && s'.queue == s.queue[1..] && s'.pushed == s.pushed)
    || (th.at == Expired && s'.queue == s.queue && s'.popped == s.popped)
    || (s.shutdown && s.queue == [] && s'.queue == [] && s'.popped == s.popped)
  }

  ghost predicate StaysOrDone(s: State, s': State, t: nat) {
    t in s.threads ==>
      if t in s'.threads then SameCall(s.threads[t], s'.threads[t])
      else if s.threads[t].Pusher? then PusherDone(s, s', s.threads[t])
      else if s.threads[t].Popper? then PopperDone(s, s', s.threads[t])
      else s'.awoken
  }

  lemma ActorDone(s: State, t: nat, u: nat)
    requires Inv(s) && ImpatientNeverWait(s) && Enabled(s, Act(t, u))
    ensures StaysOrDone(s, Critical(s, t, u), t)
  {
  }

  lemma OthersStay(s: State, t: nat, u: nat, v: nat)
    requires Inv(s) && Enabled(s, Act(t, u)) && v != t && v in s.threads
    ensures var s' := Critical(s, t, u); v in s'.threads && SameCall(s.threads[v], s'.threads[v])
  {
  }

  lemma StepDone(s: State, e: Event, t: nat)
    requires Inv(s) && ImpatientNeverWait(s) && Enabled(s, e)
    ensures StaysOrDone(s, Step(s, e), t)
  {
    match e
    case Act(v, u) =>
      if v == t {
        ActorDone(s, t, u);
      } else if t in s.threads {
        OthersStay(s, v, u, t);
      }
    case _ =>
  }

  /** Over every history who stays is still in the same call, and who leaves leaves
      as above: no message is given up but after its wait has expired, or at once
      if its pusher has no time-out and the queue is full. */
  lemma {:induction false} LeavesOnlyDone(h: History, e: Event, t: nat)
    ensures StaysOrDone(After(h), After(Then(h, e)), t)
  {
    AlwaysInv(h);
    ImpatientAlways(h);
    var s := After(h);
    if Enabled(s, e) {
      StepDone(s, e, t);
    }
  }

  /** A wait expires only by the clock, and only where there is one. */
  lemma {:induction false} ExpiresOnlyByClock(h: History, e: Event, t: nat)
    ensures
      var s, s' := After(h), After(Then(h, e));
      t in s.threads && t in s'.threads && s'.threads[t].at == Expired && s.threads[t].at != Expired ==>
        e == TimeOut(t) && (s.threads[t].at == Asleep || s.threads[t].at == Signalled)
  {
  }

  /** A patient pusher that comes to a full queue goes to sleep. */
  lemma PusherWaits(h: History, t: nat, m: Message) returns (h': History)
    requires var s := After(h); s.holder == {} && t !in s.threads && |s.queue| == 16
    ensures Extends(h', h) && After(h') == With(After(h), t, Pusher(m, true, Asleep))
  {
    var s := After(h);
    var h1 := Then(h, Enter(t, Pusher(m, true, AtLock)));
    assert After(h1) == With(s, t, Pusher(m, true, AtLock));
    var h2 := Then(h1, Acquire(t));
    var s2 := With(s, t, Pusher(m, true, Testing)).(holder := {t});
    assert After(h1).threads[t := Pusher(m, true, Testing)] == s2.threads;
    assert After(h2) == s2;
    h' := Then(h2, Act(t, t));
    assert s2.threads[t := Pusher(m, true, Asleep)] == s.threads[t := Pusher(m, true, Asleep)];
    assert Extends(h1, h) && Extends(h2, h);
  }

  /** A popper that comes takes the oldest message and wakes the pusher. */
  lemma PopWakes(h: History, p: nat, t: nat) returns (h': History)
    requires var s := After(h); s.holder == {} && p !in s.threads && s.queue != [] && Sleeps(s, t, false)
    ensures Extends(h', h)
    ensures
      var s := After(h);
      After(h') == With(s, t, s.threads[t].(at := Signalled)).(queue := s.queue[1..], popped := s.popped + [s.queue[0]])
  {
    var s := After(h);
    var h1 := Then(h, Enter(p, Popper(AtLock)));
    assert After(h1) == With(s, p, Popper(AtLock));
    var h2 := Then(h1, Acquire(p));
    var s2 := With(s, p, Popper(Testing)).(holder := {p});
    assert After(h1).threads[p := Popper(Testing)] == s2.threads;
    assert After(h2) == s2;
    h' := Then(h2, Act(p, t));
    assert Sleeps(s2, t, false) && Enabled(s2, Act(p, t));
    assert Without(s2.(holder := {}), p).threads == s.threads;
    assert After(h') == Critical(s2, p, t);
    assert Extends(h1, h) && Extends(h2, h);
  }

  /** A woken pusher that finds room pushes its message. */
  lemma WokenPushes(h: History, t: nat, m: Message) returns (h': History)
    requires
      var s := After(h);
      s.holder == {} && |s.queue| < 16 && t in s.threads && s.threads[t] == Pusher(m, true, Signalled)
    ensures Extends(h', h)
    ensures After(h').pushed == After(h).pushed + [m] && After(h').queue == After(h).queue + [m]
    ensures After(h').popped == After(h).popped
  {
    var s := After(h);
    var s1 := With(s, t, Pusher(m, true, Testing)).(holder := {t});
    var h1 := Then(h, Acquire(t));
    assert After(h1) == s1;
    var u := SomeSignal(s1, true);
    h' := Then(h1, Act(t, u));
    assert After(h') == Critical(s1, t, u);
    assert Extends(h1, h);
  }

  /** From a full queue: a pusher with a time-out sleeps, one pop wakes it, and its
      message is pushed after all that were before. */
  lemma WaitingPusherGetsIn(h: History, t: nat, m: Message, p: nat) returns (asleep: History, h': History)
    requires var s := After(h); s.holder == {} && |s.queue| == 16 && t !in s.threads && p !in s.threads && t != p
    ensures Extends(asleep, h) && Sleeps(After(asleep), t, false) && After(asleep).queue == After(h).queue
    ensures Extends(h', asleep)
    ensures After(h').pushed == After(h).pushed + [m] && After(h').popped == After(h).popped + [After(h).queue[0]]
  {
    asleep := PusherWaits(h, t, m);
    assert Sleeps(After(asleep), t, false) && p !in After(asleep).threads;
    var h1 := PopWakes(asleep, p, t);
    assert After(h1).threads[t] == Pusher(m, true, Signalled) && |After(h1).queue| == 15;
    h' := WokenPushes(h1, t, m);
    ExtendsOn(h', h1, asleep);
  }

  // ---- A lost wake-up ------------------------------------------------------

  /** A popper comes to an empty queue and goes to sleep. */
  lemma FallsAsleep(h: History, t: nat) returns (h': History)
    requires var s := After(h); s.holder == {} && t !in s.threads && s.queue == [] && !s.shutdown
    ensures After(h') == With(After(h), t, Popper(Asleep))
  {
    var s := After(h);
    var s1 := With(s, t, Popper(AtLock));
    var s2 := With(s, t, Popper(Testing)).(holder := {t});
    var s3 := With(s, t, Popper(Committed)).(holder := {t});
    var h1 := Then(h, Enter(t, Popper(AtLock)));
    assert After(h1) == s1;
    var h2 := Then(h1, Acquire(t));
    assert s1.threads[t := Popper(Testing)] == s2.threads;
    assert After(h2) == s2;
    var h3 := Then(h2, Act(t, t));
    assert s2.threads[t := Popper(Committed)] == s3.threads;
    assert After(h3) == s3;
    h' := Then(h3, Act(t, t));
    assert s3.threads[t := Popper(Asleep)] == s.threads[t := Popper(Asleep)];
  }

  /** A pusher comes, queues its message and wakes popper `u`. */
  lemma PushWakes(h: History, t: nat, m: Message, u: nat) returns (h': History)
    requires var s := After(h); s.holder == {} && t !in s.threads && s.queue == [] && Sleeps(s, u, true)
    ensures
      var s, s' := After(h), After(h');
      s' == With(s, u, Popper(Signalled)).(queue := [m], pushed := s.pushed + [m])
  {
    var s := After(h);
    var s1 := With(s, t, Pusher(m, false, AtLock));
    var s2 := With(s, t, Pusher(m, false, Testing)).(holder := {t});
    var h1 := Then(h, Enter(t, Pusher(m, false, AtLock)));
    assert After(h1) == s1;
    var h2 := Then(h1, Acquire(t));
    assert s1.threads[t := Pusher(m, false, Testing)] == s2.threads;
    assert After(h2) == s2;
    h' := Then(h2, Act(t, u));
    assert Sleeps(s2, u, true) && Enabled(s2, Act(t, u));
    assert Without(s2.(holder := {}), t).threads == s.threads;
    assert After(h') == Critical(s2, t, u);
  }

  /** A woken popper's time runs out all the same, and it leaves. */
  lemma LeavesInstead(h: History, t: nat) returns (h': History)
    requires var s := After(h); s.holder == {} && t in s.threads && s.threads[t] == Popper(Signalled)
    ensures After(h') == Without(After(h), t).(lostOnPoppers := After(h).lostOnPoppers + 1)
  {
    var s := After(h);
    var s1 := With(s, t, Popper(Expired)).(lostOnPoppers := s.lostOnPoppers + 1);
    var h1 := Then(h, TimeOut(t));
    assert After(h1) == s1;
    h' := Then(h1, Acquire(t));
    assert Without(s1, t).threads == Without(s, t).threads;
  }

  /** That count is needed: if a library lets a woken timed wait expire, a popper
      sleeps beside a queued message with nobody on the way to it. */
  lemma ExpiryLosesWakeup() returns (h: History)
    ensures
      var s := After(h);
      s.queue != [] && Sleeps(s, 2, true) && Coming(s, true) == {} && s.lostOnPoppers == 1
  {
    assert After(Boot) == BOOTED;
    var h1 := FallsAsleep(Boot, 1);
    var h2 := FallsAsleep(h1, 2);
    var h3 := PushWakes(h2, 3, 7, 1);
    h := LeavesInstead(h3, 1);
    assert After(h).threads == map[2 := Popper(Asleep)];
  }

  // ---- Draining ------------------------------------------------------------

  ghost predicate Extends(h': History, h: History) {
    h' == h || (h'.Then? && Extends(h'.before, h))
  }

  lemma {:induction false} ExtendsOn(h'': History, h': History, h: History)
    requires Extends(h'', h') && Extends(h', h)
    ensures Extends(h'', h)
  {
    if h'' != h' {
      ExtendsOn(h''.before, h', h);
    }
  }

  lemma {:induction false} NewTask(tasks: set<nat>) returns (t: nat)
    ensures forall u :: u in tasks ==> u < t
  {
    t := 0;
    if tasks != {} {
      var u :| u in tasks;
      var v := NewTask(tasks - {u});
      t := if u < v then v else u + 1;
      assert forall w :: w in tasks ==> w == u || w in tasks - {u};
    }
  }

  /** There is always someone, or no one, for a signal to reach. */
  lemma SomeSignal(s: State, popper: bool) returns (u: nat)
    ensures SignalOk(s, popper, u)
  {
    u := 0;
    if exists v :: v in s.threads && Sleeps(s, v, popper) {
      u :| u in s.threads && Sleeps(s, u, popper);
    }
  }

  /** After the wake-up whoever holds the lock lets it go in one step. */
  lemma LetsGo(h: History) returns (h': History)
    requires After(h).awoken
    ensures Extends(h', h) && After(h').holder == {} && After(h').awoken
    ensures After(h).pushed <= After(h').pushed
  {
    AlwaysInv(h);
    var s := After(h);
    h' := h;
    if t :| t in s.holder {
      var u := SomeSignal(s, s.threads[t].Pusher?);
      var e := Act(t, u);
      assert t !in Waiting(s, true);
      assert Enabled(s, e) && s.shutdown;
      OnlyPushAndPop(s, e);
      h' := Then(h, e);
      assert After(h') == Critical(s, t, u);
      assert Extends(h'.before, h);
    }
  }

  /** A popper that comes while the lock is free gets the oldest message. */
  lemma OnePop(h: History) returns (h': History)
    requires After(h).holder == {} && After(h).queue != []
    ensures Extends(h', h)
    ensures
      var s, s' := After(h), After(h');
      && s'.holder == {} && s'.awoken == s.awoken
      && s'.queue == s.queue[1..] && s'.popped == s.popped + [s.queue[0]] && s'.pushed == s.pushed
  {
    var s := After(h);
    var t := NewTask(s.threads.Keys);
    assert t !in s.threads;
    var s1 := With(s, t, Popper(AtLock));
    var s2 := With(s1, t, Popper(Testing)).(holder := {t});
    var u := SomeSignal(s2, false);
    var h1 := Then(h, Enter(t, Popper(AtLock)));
    assert After(h1) == s1.(shutdown := s.shutdown);
    var h2 := Then(h1, Acquire(t));
    assert After(h2) == s2;
    h' := Then(h2, Act(t, u));
    assert Enabled(s2, Act(t, u)) && After(h') == Critical(s2, t, u);
    assert Extends(h1, h) && Extends(h2, h);
  }

  lemma {:induction false} PopAll(h: History) returns (h': History)
    requires After(h).holder == {}
    ensures Extends(h', h) && After(h').awoken == After(h).awoken
    ensures After(h').queue == [] && After(h').pushed == After(h).pushed
    decreases |After(h).queue|
  {
    h' := h;
    if After(h).queue != [] {
      var h1 := OnePop(h);
      h' := PopAll(h1);
      ExtendsOn(h', h1, h);
    }
  }

  /** The shutdown wake-up strands no message: from every state after it, whoever
      holds the lock lets it go, poppers that come then empty the queue, and
      everything that was ever pushed has been popped, in order. */
  lemma {:induction false} DrainsAfterWakeup(h: History) returns (h': History)
    requires After(h).awoken
    ensures Extends(h', h) && After(h').awoken
    ensures After(h).pushed <= After(h').pushed
    ensures After(h').queue == [] && After(h').popped == After(h').pushed
  {
    var h1 := LetsGo(h);
    h' := PopAll(h1);
    ExtendsOn(h', h1, h);
    FifoDelivery(h');
  }
}
