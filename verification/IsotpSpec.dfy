/** ISO 15765-2 segmentation as a specification: which frames carry a payload,
    and the sender and receiver automata both stations implement. */
module IsotpSpec {
  import opened Bytes
  import opened CanBus
  import opened Errno

  const MAX_WAITS := 3

  // ---- Frames of a payload -------------------------------------------------

  function FrameCount(p: Payload): (n: nat)
    ensures n >= 1
  {
    if |p| <= 7 then 1 else 1 + |p| / 7
  }

  /** Up to seven octets, padded with zeros to seven. */
  function Pad7(s: seq<byte>): (r: seq<byte>)
    ensures |r| == 7
  {
    seq(7, i requires 0 <= i < 7 => if i < |s| then s[i] else 0)
  }

  /** Where the octets of frame `k` end in the payload. */
  function EndOf(p: Payload, k: nat): nat {
    if k == 0 then Min(|p|, if |p| <= 7 then 7 else 6) else Min(|p|, 6 + 7 * k)
  }

  /** The eight octets of frame `k` of `p`: a single frame, or a first frame
      followed by consecutive frames numbered modulo 16. */
  function Octets(p: Payload, k: nat): Octets8
    requires |p| <= MAX_PAYLOAD && k < FrameCount(p)
  {
    if |p| <= 7 then [|p|] + Pad7(p)
    else if k == 0 then [16 + |p| / 256, |p| % 256] + p[..6]
    else [32 + k % 16] + Pad7(p[6 + 7 * (k - 1)..EndOf(p, k)])
  }

  // ---- The sender ----------------------------------------------------------

  datatype SendStatus = SendOk | SendTooLong | SendOverflow | SendProtocol | SendStarved | SendTxFailed

  datatype Phase = Emit | AwaitFlow | Ended(status: SendStatus)

  datatype Sender = Sender(payload: Payload, sent: nat, phase: Phase, blockSize: byte, blockCount: nat, waits: nat)
  {
    ghost predicate Valid() {
      && sent <= FrameCount(payload)
      && (phase.Emit? ==> |payload| <= MAX_PAYLOAD && sent < FrameCount(payload))
      && (phase.AwaitFlow? ==> |payload| <= MAX_PAYLOAD && 1 <= sent < FrameCount(payload) && waits <= MAX_WAITS)
      && (phase == Ended(SendOk) <==> sent == FrameCount(payload))
    }
  }

  function Begin(p: Payload): (s: Sender)
    ensures s.Valid()
  {
    Sender(p, 0, if |p| > MAX_PAYLOAD then Ended(SendTooLong) else Emit, 0, 0, 0)
  }

  /** The sender after its next frame went out. */
  function AfterEmit(s: Sender): (s': Sender)
    requires s.Valid() && s.phase.Emit?
    ensures s'.Valid()
  {
    var t := s.(sent := s.sent + 1, blockCount := if s.sent == 0 then 0 else s.blockCount + 1);
    if t.sent == FrameCount(s.payload) then t.(phase := Ended(SendOk))
    else if s.sent == 0 || (s.blockSize != 0 && t.blockCount >= s.blockSize) then t.(phase := AwaitFlow, waits := 0)
    else t
  }

  /** How a station addresses its frames, and whether it reads the bare wire
      (and so filters identifiers itself) or a filtered subscription. */
  datatype Link = Link(txId: nat, txExtended: bool, wire: bool)

  const ECU_REQUEST_ID := 0x7e0
  const ECU_RESPONSE_ID := 0x7e8
  const M7_LINK := Link(ECU_REQUEST_ID, false, false)
  const ECU_LINK := Link(ECU_RESPONSE_ID, false, true)

  predicate Addressed(f: CanFrame, l: Link) {
    l.wire ==> f.id == ECU_REQUEST_ID && !f.extended && !f.rtr
  }

  predicate IsFlowControl(f: CanFrame, l: Link) {
    Addressed(f, l) && f.dlc >= 3 && f.Kind() == 3
  }

  /** The sender after it read `f` while waiting for flow control. */
  function OnFlow(s: Sender, f: CanFrame, l: Link): (s': Sender)
    requires s.Valid() && s.phase.AwaitFlow?
    ensures s'.Valid()
  {
    if !IsFlowControl(f, l) then s
    else if f.Low() == 0 then s.(phase := Emit, blockSize := f.data[1], blockCount := 0)
    else if f.Low() == 2 then s.(phase := Ended(SendOverflow))
    else if f.Low() == 1 && s.waits < MAX_WAITS then s.(waits := s.waits + 1)
    else s.(phase := Ended(SendProtocol))
  }

  /** A sender together with its port. */
  datatype SendRun = SendRun(s: Sender, inbox: seq<CanFrame>, credits: nat, trace: Trace)

  function FrameOf(s: Sender, l: Link): CanFrame
    requires s.Valid() && s.phase.Emit?
  {
    CanFrame(l.txId, l.txExtended, false, 8, Octets(s.payload, s.sent))
  }

  function Advance(x: SendRun, l: Link): (y: SendRun)
    requires x.s.Valid() && !x.s.phase.Ended?
    ensures y.s.Valid() && y.s.payload == x.s.payload
    ensures y.s.phase.Ended? || y.credits + |y.inbox| < x.credits + |x.inbox|
  {
    match x.s.phase
    case Emit =>
      if x.credits == 0 then x.(s := x.s.(phase := Ended(SendTxFailed)))
      else SendRun(AfterEmit(x.s), x.inbox, x.credits - 1, Then(x.trace, Tx(FrameOf(x.s, l))))
    case AwaitFlow =>
      if x.inbox == [] then x.(s := x.s.(phase := Ended(SendStarved)))
      else SendRun(OnFlow(x.s, x.inbox[0], l), x.inbox[1..], x.credits, Then(x.trace, Rx(x.inbox[0])))
  }

  /** The transfer run to its end. */
  function Transfer(x: SendRun, l: Link): (y: SendRun)
    requires x.s.Valid()
    ensures y.s.Valid() && y.s.phase.Ended? && y.s.payload == x.s.payload
    decreases x.credits + |x.inbox|, if x.s.phase.Ended? then 0 else 1
  {
    if x.s.phase.Ended? then x else Transfer(Advance(x, l), l)
  }

  /** The transfer run until it no longer waits for flow control. */
  function Awaited(x: SendRun, l: Link): (y: SendRun)
    requires x.s.Valid()
    ensures y.s.Valid() && !y.s.phase.AwaitFlow?
    decreases |x.inbox|, if x.s.phase.AwaitFlow? then 1 else 0
  {
    if x.s.phase.AwaitFlow? then Awaited(Advance(x, l), l) else x
  }

  lemma {:induction false} TransferAwaited(x: SendRun, l: Link)
    requires x.s.Valid()
    ensures Transfer(x, l) == Transfer(Awaited(x, l), l)
    decreases |x.inbox|, if x.s.phase.AwaitFlow? then 1 else 0
  {
    if x.s.phase.AwaitFlow? {
      TransferAwaited(Advance(x, l), l);
    }
  }

  /** Waiting changes nothing but the phase, the wait count and the block. */
  lemma {:induction false} AwaitedKeeps(x: SendRun, l: Link)
    requires x.s.Valid()
    ensures
      var y := Awaited(x, l);
      && y.credits == x.credits
      && (x.s.phase.AwaitFlow? && y.s.phase.Emit? ==>
            y.s == x.s.(phase := Emit, blockSize := y.s.blockSize, blockCount := 0, waits := y.s.waits))
    decreases |x.inbox|, if x.s.phase.AwaitFlow? then 1 else 0
  {
    if x.s.phase.AwaitFlow? {
      AwaitedKeeps(Advance(x, l), l);
    }
  }

  // ---- The M7 receiver -----------------------------------------------------

  datatype Receiver =
    | AwaitFirst
    | Collecting(total: nat, stored: seq<byte>, expected: nat)
    | Received(payload: Payload)
    | Refused(error: int)

  /** The reaction to a frame: the next state, and a flow status to answer with. */
  datatype Reaction = Reaction(next: Receiver, flow: Option<nat>)

  datatype Option<+T> = None | Some(value: T)

  function OnFirst(f: CanFrame, capacity: nat): Reaction {
    if f.dlc == 0 then Reaction(Refused(-EPROTO), None)
    else if f.Kind() == 0 then
      var total := f.Low();
      if total > 7 || f.dlc < total + 1 then Reaction(Refused(-EPROTO), None)
      else if total > capacity then Reaction(Refused(-EMSGSIZE), None)
      else Reaction(Received(f.data[1..1 + total]), None)
    else if f.Kind() != 1 || f.dlc < 8 then Reaction(Refused(-EPROTO), None)
    else
      var total := f.Low() * 256 + f.data[1];
      if total <= 7 || total > MAX_PAYLOAD || total > capacity then Reaction(Refused(-EMSGSIZE), Some(2))
      else Reaction(Collecting(total, f.data[2..8], 1), Some(0))
  }

  function OnConsecutive(r: Receiver, f: CanFrame): Receiver
    requires r.Collecting? && |r.stored| < r.total
  {
    var chunk := Min(7, r.total - |r.stored|);
    if f.Kind() != 2 || f.Low() != r.expected || f.dlc < chunk + 1 then Refused(-EPROTO)
    else
      var stored := r.stored + f.data[1..1 + chunk];
      if |stored| == r.total then Received(stored) else Collecting(r.total, stored, (r.expected + 1) % 16)
  }

  ghost predicate ReceiverValid(r: Receiver) {
    r.Collecting? ==> |r.stored| < r.total <= MAX_PAYLOAD && 6 <= |r.stored| && 1 <= r.total
  }

  function OnResponse(r: Receiver, f: CanFrame, capacity: nat): (x: Reaction)
    requires (r.AwaitFirst? || r.Collecting?) && ReceiverValid(r)
    ensures ReceiverValid(x.next) && !x.next.AwaitFirst?
    ensures x.flow.Some? ==> x.flow.value < 16
  {
    if r.AwaitFirst? then OnFirst(f, capacity) else Reaction(OnConsecutive(r, f), None)
  }

  function FlowFrame(status: nat, l: Link): CanFrame
    requires status < 16
  {
    CanFrame(l.txId, l.txExtended, false, 8, [48 + status, 0, 5, 0, 0, 0, 0, 0])
  }

  /** A receiver together with its port.  The answer to a refused first frame
      is sent without looking at the outcome; a failed clear-to-send ends the
      reception with the transmit error. */
  datatype ReceiveRun = ReceiveRun(r: Receiver, inbox: seq<CanFrame>, credits: nat, trace: Trace)

  function Answer(x: ReceiveRun, reaction: Reaction, l: Link, txError: int): (y: ReceiveRun)
    requires reaction.flow.Some? ==> reaction.flow.value < 16
    ensures y.inbox == x.inbox
  {
    match reaction.flow
    case None => x.(r := reaction.next)
    case Some(status) =>
      if x.credits > 0 then
        x.(r := reaction.next, credits := x.credits - 1, trace := Then(x.trace, Tx(FlowFrame(status, l))))
      else if reaction.next.Collecting? then x.(r := Refused(txError))
      else x.(r := reaction.next)
  }

  function Reception(x: ReceiveRun, capacity: nat, l: Link, rxError: int, txError: int): (y: ReceiveRun)
    requires ReceiverValid(x.r)
    ensures y.r.Received? || y.r.Refused?
    decreases |x.inbox|, if x.r.AwaitFirst? || x.r.Collecting? then 1 else 0
  {
    if x.r.Received? || x.r.Refused? then x
    else if x.inbox == [] then x.(r := Refused(rxError))
    else
      var read := x.(inbox := x.inbox[1..], trace := Then(x.trace, Rx(x.inbox[0])));
      Reception(Answer(read, OnResponse(x.r, x.inbox[0], capacity), l, txError), capacity, l, rxError, txError)
  }

  // ---- The ECU receiver ----------------------------------------------------

  datatype EcuRx = EcuRx(active: bool, total: nat, received: nat, next: nat, payload: seq<byte>)
  {
    ghost predicate Valid() {
      && |payload| == MAX_PAYLOAD
      && (active ==>
            && 6 <= received < total <= MAX_PAYLOAD
            && (received - 6) % 7 == 0
            && next == ((received - 6) / 7 + 1) % 16)
    }
  }

  datatype EcuAction = Nothing | Flow(status: nat) | Deliver(request: Payload)

  /** `buffer` with `s` written at `at`. */
  function Write(buffer: seq<byte>, at: nat, s: seq<byte>): (r: seq<byte>)
    requires at + |s| <= |buffer|
    ensures |r| == |buffer| && r[..at] == buffer[..at] && r[at..at + |s|] == s
  {
    buffer[..at] + s + buffer[at + |s|..]
  }

  /** An accepted consecutive frame stores up to seven octets. */
  function EcuStore(rx: EcuRx, f: CanFrame): (rx': EcuRx)
    requires rx.Valid() && rx.active
    ensures rx'.received < rx'.total ==> rx'.Valid()
    ensures rx'.active && |rx'.payload| == MAX_PAYLOAD && rx'.received <= rx'.total <= MAX_PAYLOAD
  {
    var chunk := Min(7, rx.total - rx.received);
    rx.(payload := Write(rx.payload, rx.received, f.data[1..1 + chunk]),
        received := rx.received + chunk,
        next := (rx.next + 1) % 16)
  }

  function EcuOnFrame(rx: EcuRx, f: CanFrame): (r: (EcuRx, EcuAction))
    requires rx.Valid()
    ensures r.0.Valid() && (r.1.Flow? ==> r.1.status == 0 || r.1.status == 2)
  {
    if f.Kind() == 0 then
      var length := f.Low();
      (rx, if length <= 7 && f.dlc >= length + 1 then Deliver(f.data[1..1 + length]) else Nothing)
    else if f.Kind() == 1 then
      var total := f.Low() * 256 + f.data[1];
      if total <= 7 || total > MAX_PAYLOAD then (rx, Flow(2))
      else (EcuRx(true, total, 6, 1, Write(rx.payload, 0, f.data[2..8])), Flow(0))
    else if f.Kind() == 2 && rx.active then
      if f.Low() != rx.next then (rx.(active := false), Nothing)
      else
        var rx' := EcuStore(rx, f);
        if rx'.received == rx'.total then (rx'.(active := false), Deliver(rx'.payload[..rx'.total]))
        else (rx', Nothing)
    else (rx, Nothing)
  }
}
