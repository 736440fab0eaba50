/** What every run of the sending automaton guarantees, stated without it. */
module IsotpContract {
  import opened Bytes
  import opened CanBus
  import opened IsotpSpec

  // ---- What is sent --------------------------------------------------------

  /** The first `n` frames of the payload, as the link addresses them. */
  function Frames(p: Payload, l: Link, n: nat): (r: seq<CanFrame>)
    requires |p| <= MAX_PAYLOAD && n <= FrameCount(p)
    ensures |r| == n
  {
    if n == 0 then []
    else Frames(p, l, n - 1) + [CanFrame(l.txId, l.txExtended, false, 8, Octets(p, n - 1))]
  }

  /** Since `before`, the run has sent exactly the frames its state counts. */
  ghost predicate SentSoFar(x: SendRun, l: Link, before: seq<CanFrame>) {
    && x.s.Valid() && |x.s.payload| <= MAX_PAYLOAD
    && Sent(x.trace) == before + Frames(x.s.payload, l, x.s.sent)
  }

  lemma AdvanceSends(x: SendRun, l: Link, before: seq<CanFrame>)
    requires SentSoFar(x, l, before) && !x.s.phase.Ended?
    ensures SentSoFar(Advance(x, l), l, before)
  {
    var y := Advance(x, l);
    if y.s.sent == x.s.sent + 1 {
      assert y.trace == Then(x.trace, Tx(FrameOf(x.s, l)));
    }
  }

  lemma {:induction false} TransferKeeps(x: SendRun, l: Link, before: seq<CanFrame>)
    requires SentSoFar(x, l, before)
    ensures SentSoFar(Transfer(x, l), l, before)
    decreases x.credits + |x.inbox|, if x.s.phase.Ended? then 0 else 1
  {
    if !x.s.phase.Ended? {
      AdvanceSends(x, l, before);
      TransferKeeps(Advance(x, l), l, before);
    }
  }

  /** A transfer transmits exactly the first frames of its payload, in order,
      and reports success exactly when it transmitted all of them. */
  lemma TransferSends(p: Payload, inbox: seq<CanFrame>, credits: nat, trace: Trace, l: Link)
    requires |p| <= MAX_PAYLOAD
    ensures
      var y := Transfer(SendRun(Begin(p), inbox, credits, trace), l);
      && y.s.sent <= FrameCount(p)
      && Sent(y.trace) == Sent(trace) + Frames(p, l, y.s.sent)
      && (y.s.phase.status == SendOk <==> y.s.sent == FrameCount(p))
  {
    TransferKeeps(SendRun(Begin(p), inbox, credits, trace), l, Sent(trace));
  }

  // ---- Pacing --------------------------------------------------------------

  /** The latest clear-to-send in a trace: its block size, and the consecutive
      frames transmitted since. */
  datatype Window = Closed | Open(size: byte, used: nat)

  function Note(w: Window, e: Event, l: Link): Window {
    if e.Rx? && IsFlowControl(e.frame, l) && e.frame.Low() == 0 then Open(e.frame.data[1], 0)
    else if e.Tx? && e.frame.Kind() == 2 && w.Open? then w.(used := w.used + 1)
    else w
  }

  function Observe(trace: Trace, l: Link): Window {
    match trace
    case Start => Closed
    case Then(before, e) => Note(Observe(before, l), e, l)
  }

  ghost predicate Allows(w: Window) {
    w.Open? && (w.size != 0 ==> w.used < w.size)
  }

  /** Every consecutive frame follows a clear-to-send whose block, if bounded,
      is not yet used up. */
  ghost predicate Paced(trace: Trace, l: Link) {
    match trace
    case Start => true
    case Then(before, e) => Paced(before, l) && (e.Tx? && e.frame.Kind() == 2 ==> Allows(Observe(before, l)))
  }

  ghost predicate InStep(x: SendRun, l: Link) {
    x.s.phase.Emit? && x.s.sent >= 1 ==>
      Observe(x.trace, l) == Open(x.s.blockSize, x.s.blockCount) && Allows(Observe(x.trace, l))
  }

  lemma AdvancePaced(x: SendRun, l: Link)
    requires x.s.Valid() && !x.s.phase.Ended? && Paced(x.trace, l) && InStep(x, l)
    ensures Paced(Advance(x, l).trace, l) && InStep(Advance(x, l), l)
  {
    if x.s.phase.Emit? {
      assert FrameOf(x.s, l).Kind() == 2 <==> x.s.sent >= 1;
    }
  }

  /** For every stream of flow-control frames, with block sizes that may change
      at each clear-to-send, a run never exceeds the block it was granted. */
  lemma {:induction false} TransferPaced(x: SendRun, l: Link)
    requires x.s.Valid() && Paced(x.trace, l) && InStep(x, l)
    ensures Paced(Transfer(x, l).trace, l)
    decreases x.credits + |x.inbox|, if x.s.phase.Ended? then 0 else 1
  {
    if !x.s.phase.Ended? {
      AdvancePaced(x, l);
      TransferPaced(Advance(x, l), l);
    }
  }

  // ---- Waiting for flow control --------------------------------------------

  /** The flow statuses among the frames of an inbox, in order. */
  function Statuses(inbox: seq<CanFrame>, l: Link): seq<nat> {
    if inbox == [] then []
    else (if IsFlowControl(inbox[0], l) then [inbox[0].Low()] else []) + Statuses(inbox[1..], l)
  }

  function LeadingWaits(s: seq<nat>): (n: nat)
    ensures n <= |s|
    ensures forall i :: 0 <= i < n ==> s[i] == 1
    ensures n < |s| ==> s[n] != 1
  {
    if s == [] || s[0] != 1 then 0 else 1 + LeadingWaits(s[1..])
  }

  /** The verdict on a stream of statuses when `allowed` more waits are tolerated. */
  function Verdict(s: seq<nat>, allowed: nat): Phase {
    var n := LeadingWaits(s);
    if n > allowed then Ended(SendProtocol)
    else if n == |s| then Ended(SendStarved)
    else if s[n] == 0 then Emit
    else if s[n] == 2 then Ended(SendOverflow)
    else Ended(SendProtocol)
  }

  lemma VerdictHead(v: nat, t: seq<nat>, allowed: nat)
    ensures Verdict([v] + t, allowed)
         == if v != 1 then (if v == 0 then Emit else if v == 2 then Ended(SendOverflow) else Ended(SendProtocol))
            else if allowed == 0 then Ended(SendProtocol) else Verdict(t, allowed - 1)
  {
    assert ([v] + t)[1..] == t;
  }

  /** Waiting succeeds exactly when the first status that is not a wait is a
      clear-to-send and at most three waits precede it; a fourth wait, an
      overflow, an unknown status and silence are told apart. */
  lemma {:induction false} AwaitedVerdict(x: SendRun, l: Link)
    requires x.s.Valid() && x.s.phase.AwaitFlow?
    ensures Awaited(x, l).s.phase == Verdict(Statuses(x.inbox, l), 3 - x.s.waits)
    decreases |x.inbox|
  {
    if x.inbox != [] {
      var f := x.inbox[0];
      var x1 := Advance(x, l);
      var t := Statuses(x1.inbox, l);
      if x1.s.phase.AwaitFlow? {
        AwaitedVerdict(x1, l);
      }
      if IsFlowControl(f, l) {
        assert Statuses(x.inbox, l) == [f.Low()] + t;
        VerdictHead(f.Low(), t, 3 - x.s.waits);
      } else {
        assert Statuses(x.inbox, l) == t;
      }
    }
  }

  // ---- Both stations send alike --------------------------------------------

  /** The same flow-control octets, as the M7 sees them through its subscription
      and as the ECU sees them on the wire. */
  ghost predicate SameOctets(m7: seq<CanFrame>, ecu: seq<CanFrame>, wire: Link) {
    && |m7| == |ecu|
    && forall i :: 0 <= i < |m7| ==>
         m7[i].dlc == ecu[i].dlc && m7[i].data == ecu[i].data && Addressed(ecu[i], wire)
  }

  lemma {:induction false} FramesAlike(p: Payload, l: Link, k: Link, n: nat)
    requires |p| <= MAX_PAYLOAD && n <= FrameCount(p)
    ensures forall i :: 0 <= i < n ==>
              Frames(p, l, n)[i].dlc == Frames(p, k, n)[i].dlc && Frames(p, l, n)[i].data == Frames(p, k, n)[i].data
  {
    if n > 0 {
      FramesAlike(p, l, k, n - 1);
    }
  }

  /** Given the same payload and the same flow control, the two stations send the
      same octets frame by frame and end alike. */
  lemma StationsSendAlike(p: Payload, m7Inbox: seq<CanFrame>, ecuInbox: seq<CanFrame>, credits: nat,
                          m7: Link, ecu: Link)
    requires |p| <= MAX_PAYLOAD && !m7.wire && ecu.wire && SameOctets(m7Inbox, ecuInbox, ecu)
    ensures
      var a := Transfer(SendRun(Begin(p), m7Inbox, credits, Start), m7);
      var b := Transfer(SendRun(Begin(p), ecuInbox, credits, Start), ecu);
      && a.s == b.s && |Sent(a.trace)| == |Sent(b.trace)|
      && forall i :: 0 <= i < |Sent(a.trace)| ==>
           Sent(a.trace)[i].dlc == Sent(b.trace)[i].dlc && Sent(a.trace)[i].data == Sent(b.trace)[i].data
  {
    var x, y := SendRun(Begin(p), m7Inbox, credits, Start), SendRun(Begin(p), ecuInbox, credits, Start);
    StationsEndAlike(x, y, m7, ecu);
    TransferSends(p, m7Inbox, credits, Start, m7);
    TransferSends(p, ecuInbox, credits, Start, ecu);
    FramesAlike(p, m7, ecu, Transfer(x, m7).s.sent);
  }

  lemma {:induction false} StationsEndAlike(x: SendRun, y: SendRun, m7: Link, ecu: Link)
    requires x.s == y.s && x.s.Valid() && x.credits == y.credits && !m7.wire && ecu.wire
    requires SameOctets(x.inbox, y.inbox, ecu)
    ensures Transfer(x, m7).s == Transfer(y, ecu).s
    ensures SameOctets(Transfer(x, m7).inbox, Transfer(y, ecu).inbox, ecu)
    decreases x.credits + |x.inbox|, if x.s.phase.Ended? then 0 else 1
  {
    if x.s.phase.Ended? {
    } else {
      StationsEndAlike(Advance(x, m7), Advance(y, ecu), m7, ecu);
    }
  }
}
