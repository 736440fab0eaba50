/** The command mailbox between client tasks and the daemon that owns the CAN
    device: one transmit lock, one command slot, one completion semaphore.
    Each step touches the shared slot at most once. */
module CommandMailbox {
  import opened CanBus

  datatype Kind = NoCommand | SendKind | RecoverKind

  datatype Request = Send(frame: CanFrame, timeout: nat) | Recover
  {
    function KindOf(): Kind { if Send? then SendKind else RecoverKind }
  }

  /** Where a client call stands: waiting for the lock, lock held, message
      stored, deadline stored, command published, completion seen. */
  datatype Progress = Queued | Locked | FrameStored | TimeoutStored | Published | Completed

  datatype Call = Call(request: Request, progress: Progress, ticket: nat)

  /** Where the daemon stands in processing the command it read. */
  datatype Daemon = Polling | Loaded(kind: Kind) | Computed(ret: int) | Stored | Cleared

  datatype Slot = Slot(kind: Kind, frame: CanFrame, timeout: nat, result: int, done: nat)

  /** What was carried out, and what each call returned. */
  datatype Done = Done(request: Request, ret: int)

  datatype Return = Return(ticket: nat, request: Request, ret: int)

  datatype State = State(
    txLock: set<nat>,
    calls: map<nat, Call>,
    daemon: Daemon,
    slot: Slot,
    started: nat,
    executed: seq<Done>,
    returned: seq<Return>)

  const NO_FRAME := CanFrame(0, false, false, 0, [0, 0, 0, 0, 0, 0, 0, 0])
  const BOOTED := State({}, map[], Polling, Slot(NoCommand, NO_FRAME, 0, 0, 0), 0, [], [])

  datatype Event =
    | Enter(task: nat, request: Request)
    | ClientStep(task: nat)
    | DaemonStep(outcome: int)

  predicate Enabled(s: State, e: Event) {
    match e
    case Enter(t, _) => t !in s.calls
    case ClientStep(t) =>
      t in s.calls &&
      (match s.calls[t].progress
       case Queued => s.txLock == {}
       case Published => s.slot.done > 0
       case _ => true)
    case DaemonStep(_) => s.daemon.Polling? ==> s.slot.kind != NoCommand
  }

  /** A client sending skips nothing; one recovering only publishes the kind. */
  function Client(s: State, t: nat): State
    requires t in s.calls && Enabled(s, ClientStep(t))
  {
    var c := s.calls[t];
    match c.progress
    case Queued =>
      s.(txLock := {t}, started := s.started + 1, calls := s.calls[t := Call(c.request, Locked, s.started)])
    case Locked =>
      if c.request.Send? then
        s.(slot := s.slot.(frame := c.request.frame), calls := s.calls[t := c.(progress := FrameStored)])
      else
        s.(slot := s.slot.(kind := RecoverKind), calls := s.calls[t := c.(progress := Published)])
    case FrameStored =>
      if c.request.Send? then
        s.(slot := s.slot.(timeout := c.request.timeout), calls := s.calls[t := c.(progress := TimeoutStored)])
      else s
    case TimeoutStored =>
      s.(slot := s.slot.(kind := SendKind), calls := s.calls[t := c.(progress := Published)])
    case Published =>
      s.(slot := s.slot.(done := s.slot.done - 1), calls := s.calls[t := c.(progress := Completed)])
    case Completed =>
      s.(txLock := {}, calls := map u | u in s.calls && u != t :: s.calls[u],
         returned := s.returned + [Return(c.ticket, c.request, s.slot.result)])
  }

  /** The request the daemon carries out is the one it finds in the slot. */
  function Service(s: State, outcome: int): State
    requires Enabled(s, DaemonStep(outcome))
  {
    match s.daemon
    case Polling => s.(daemon := Loaded(s.slot.kind))
    case Loaded(k) =>
      var request := if k == SendKind then Send(s.slot.frame, s.slot.timeout) else Recover;
      s.(daemon := Computed(outcome), executed := s.executed + [Done(request, outcome)])
    case Computed(r) => s.(daemon := Stored, slot := s.slot.(result := r))
    case Stored => s.(daemon := Cleared, slot := s.slot.(kind := NoCommand))
    case Cleared => s.(daemon := Polling, slot := s.slot.(done := s.slot.done + 1))
  }

  function Step(s: State, e: Event): State
    requires Enabled(s, e)
  {
    match e
    case Enter(t, r) => s.(calls := s.calls[t := Call(r, Queued, 0)])
    case ClientStep(t) => Client(s, t)
    case DaemonStep(outcome) => Service(s, outcome)
  }

  // ---- The invariant -------------------------------------------------------

  /** The slot holds everything of `c`'s request but its kind. */
  ghost predicate Holds(s: State, c: Call) {
    c.request.Send? ==>
      && (c.progress != Locked ==> s.slot.frame == c.request.frame)
      && (c.progress != Locked && c.progress != FrameStored ==> s.slot.timeout == c.request.timeout)
  }

  /** The daemon is idle and the slot empty. */
  ghost predicate Quiet(s: State) {
    s.daemon == Polling && s.slot.kind == NoCommand && s.slot.done == 0
  }

  ghost predicate LastDone(s: State, c: Call) {
    |s.executed| == s.started && s.executed != [] && s.executed[|s.executed| - 1].request == c.request
  }

  /** How far the published command of the lock holder has come. */
  ghost predicate InService(s: State, c: Call) {
    var last := |s.executed| - 1;
    match s.daemon
    case Polling =>
      || (s.slot.kind == c.request.KindOf() && s.slot.done == 0 && |s.executed| == c.ticket)
      || (s.slot.kind == NoCommand && s.slot.done == 1 && LastDone(s, c) && s.slot.result == s.executed[last].ret)
    case Loaded(k) => k == s.slot.kind == c.request.KindOf() && s.slot.done == 0 && |s.executed| == c.ticket
    case Computed(r) =>
      s.slot.kind == c.request.KindOf() && s.slot.done == 0 && LastDone(s, c) && r == s.executed[last].ret
    case Stored =>
      s.slot.kind == c.request.KindOf() && s.slot.done == 0 && LastDone(s, c) && s.slot.result == s.executed[last].ret
    case Cleared =>
      s.slot.kind == NoCommand && s.slot.done == 0 && LastDone(s, c) && s.slot.result == s.executed[last].ret
  }

  ghost predicate HolderOk(s: State, c: Call) {
    && s.started == c.ticket + 1 && Holds(s, c)
    && (c.request.Recover? ==> c.progress != FrameStored && c.progress != TimeoutStored)
    && match c.progress
       case Queued => false
       case Published => InService(s, c)
       case Completed => Quiet(s) && LastDone(s, c) && s.slot.result == s.executed[|s.executed| - 1].ret
       case _ => Quiet(s) && |s.executed| == c.ticket
  }

  ghost predicate Inv(s: State) {
    && (s.txLock == {} ==> Quiet(s) && |s.executed| == s.started)
    && (s.txLock != {} ==> exists t :: s.txLock == {t} && t in s.calls && HolderOk(s, s.calls[t]))
    && (forall t :: t in s.calls && t !in s.txLock ==> s.calls[t].progress == Queued)
    && (forall i :: 0 <= i < |s.returned| ==>
          i < |s.executed| && s.returned[i] == Return(i, s.executed[i].request, s.executed[i].ret))
    && |s.returned| + |s.txLock| == s.started
  }

  lemma ClientKeepsInv(s: State, t: nat)
    requires Inv(s) && Enabled(s, ClientStep(t))
    ensures Inv(Client(s, t))
  {
    var s' := Client(s, t);
    if s.calls[t].progress == Completed {
      assert s'.txLock == {};
    } else {
      assert s'.txLock == {t} && t in s'.calls && HolderOk(s', s'.calls[t]);
    }
  }

  lemma ServiceKeepsInv(s: State, outcome: int)
    requires Inv(s) && Enabled(s, DaemonStep(outcome))
    ensures Inv(Service(s, outcome))
  {
    var s' := Service(s, outcome);
    var t :| s.txLock == {t} && t in s.calls && HolderOk(s, s.calls[t]);
    assert s'.txLock == {t} && HolderOk(s', s'.calls[t]);
  }

  lemma StepKeepsInv(s: State, e: Event)
    requires Inv(s) && Enabled(s, e)
    ensures Inv(Step(s, e))
  {
    match e
    case Enter(t, r) =>
      if s.txLock != {} {
        var u :| s.txLock == {u} && u in s.calls && HolderOk(s, s.calls[u]);
        assert Step(s, e).txLock == {u} && HolderOk(Step(s, e), Step(s, e).calls[u]);
      }
    case ClientStep(t) => ClientKeepsInv(s, t);
    case DaemonStep(outcome) => ServiceKeepsInv(s, outcome);
  }

  /** Any history; an event that is not possible when its turn comes does not happen. */
  datatype History = Boot | Then(before: History, event: Event)

  function After(h: History): State {
    match h
    case Boot => BOOTED
    case Then(before, e) => var s := After(before); if Enabled(s, e) then Step(s, e) else s
  }

  lemma {:induction false} AlwaysInv(h: History)
    ensures Inv(After(h))
  {
    match h
    case Boot =>
    case Then(before, e) =>
      AlwaysInv(before);
      if Enabled(After(before), e) {
        StepKeepsInv(After(before), e);
      }
  }

  /** In every interleaving the call that took the lock as number `i` returns
      as number `i`, with the result of carrying out its own request, and that
      request was carried out once, as number `i`. */
  lemma {:induction false} OwnResult(h: History, i: nat)
    requires i < |After(h).returned|
    ensures
      var s := After(h);
      var r := s.returned[i];
      r.ticket == i < |s.executed| <= s.started && s.executed[i] == Done(r.request, r.ret)
  {
    AlwaysInv(h);
    var s := After(h);
    if s.txLock != {} {
      var t :| s.txLock == {t} && t in s.calls && HolderOk(s, s.calls[t]);
    }
  }

  /** With the lock free no command is pending, nothing is in service, the
      completion count is zero and every command issued was carried out. */
  lemma {:induction false} FreeLockIsQuiet(h: History)
    ensures After(h).txLock == {} ==> Quiet(After(h)) && |After(h).executed| == After(h).started
    ensures After(h).slot.done <= 1
    ensures After(h).slot.kind != NoCommand ==> |After(h).txLock| == 1
  {
    AlwaysInv(h);
  }

  // ---- Progress ------------------------------------------------------------

  /** The task that holds the lock. */
  predicate IsHolder(s: State, t: nat) {
    s.txLock == {t} && t in s.calls
  }

  /** How many statements the holder and the daemon still have to carry out. */
  function Remaining(c: Call, s: State): nat {
    match c.progress
    case Queued => 10
    case Locked => 9
    case FrameStored => 8
    case TimeoutStored => 7
    case Published =>
      if s.slot.done > 0 then 1
      else
        (match s.daemon
         case Polling => 6
         case Loaded(_) => 5
         case Computed(_) => 4
         case Stored => 3
         case Cleared => 2)
    case Completed => 0
  }

  /** In every reachable state with the lock taken, the holder or the daemon can go
      on, and whichever does brings the call nearer to its end; with the lock free,
      every call that waits can take it. */
  lemma {:induction false} NobodyIsStuck(h: History)
    ensures
      var s := After(h);
      && (s.txLock == {} ==> forall t :: t in s.calls ==> Enabled(s, ClientStep(t)))
      && (s.txLock != {} ==>
            exists t :: IsHolder(s, t) && (Enabled(s, ClientStep(t)) || Enabled(s, DaemonStep(0))))
  {
    AlwaysInv(h);
    var s := After(h);
    if s.txLock != {} {
      var t :| s.txLock == {t} && t in s.calls && HolderOk(s, s.calls[t]);
      assert IsHolder(s, t);
    }
  }

  /** Each statement of the holder but its last, and each of the daemon, lowers what
      remains; the last statement returns and frees the lock. */
  lemma {:induction false} CallsComplete(h: History, t: nat, e: Event)
    requires IsHolder(After(h), t) && Enabled(After(h), e) && (e == ClientStep(t) || e.DaemonStep?)
    ensures
      var s, s' := After(h), After(History.Then(h, e));
      if s.calls[t].progress == Completed && e == ClientStep(t) then
        s'.txLock == {} && |s'.returned| == |s.returned| + 1 && t !in s'.calls
      else IsHolder(s', t) && Remaining(s'.calls[t], s') < Remaining(s.calls[t], s)
  {
    AlwaysInv(h);
    var s := After(h);
    var u :| s.txLock == {u} && u in s.calls && HolderOk(s, s.calls[u]);
    assert u == t;
  }

  /** Other tasks do not touch the holder's call or the slot. */
  lemma {:induction false} OthersWait(h: History, t: nat, e: Event)
    requires IsHolder(After(h), t) && Enabled(After(h), e) && e != ClientStep(t) && !e.DaemonStep?
    ensures
      var s, s' := After(h), After(History.Then(h, e));
      IsHolder(s', t) && s'.calls[t] == s.calls[t] && s'.slot == s.slot && s'.daemon == s.daemon
  {
    AlwaysInv(h);
    var s := After(h);
    var u :| s.txLock == {u} && u in s.calls && HolderOk(s, s.calls[u]);
  }
}
