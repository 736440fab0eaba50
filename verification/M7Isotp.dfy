/** The M7 side of the transport: loops over a frame buffer, proved against
    the automata of IsotpSpec. */
module M7Isotp {
  import opened Bytes
  import opened CanBus
  import opened IsotpSpec
  import opened FrameBuffer
  import CanRouter
  import RouterSpec
  import opened Errno

  /** The error code a finished transfer is reported with. */
  function SendCode(status: SendStatus, rxError: int, txError: int): int {
    match status
    case SendOk => 0
    case SendTooLong => -EMSGSIZE
    case SendOverflow => -EMSGSIZE
    case SendProtocol => -EPROTO
    case SendStarved => rxError
    case SendTxFailed => txError
  }

  method WaitFlowControl(port: CanPort, l: Link, ghost s: Sender) returns (ret: int, blockSize: byte)
    requires s.Valid() && s.phase.AwaitFlow? && s.waits == 0 && !l.wire && port.rxError < 0
    modifies port
    ensures
      var y := Awaited(SendRun(s, old(port.inbox), old(port.credits), old(port.trace)), l);
      && port.inbox == y.inbox && port.credits == y.credits && port.trace == y.trace
      && (y.s.phase.Emit? ==> ret == 0 && blockSize == y.s.blockSize)
      && (y.s.phase.Ended? ==> ret < 0 && ret == SendCode(y.s.phase.status, port.rxError, port.txError))
  {
    var waits := 0;
    ghost var t := s;
    blockSize := 0;
    while true
      invariant t.Valid() && t == s.(waits := waits)
      invariant Awaited(SendRun(s, old(port.inbox), old(port.credits), old(port.trace)), l)
             == Awaited(SendRun(t, port.inbox, port.credits, port.trace), l)
      decreases |port.inbox|
    {
      var r, frame := port.Receive();
      if r < 0 {
        return r, 0;
      }
      ghost var u := OnFlow(t, frame, l);
      assert u.phase.AwaitFlow? ==> u == s.(waits := u.waits);
      t := u;
      if frame.dlc < 3 || frame.Kind() != 3 {
        continue;
      }
      var flowStatus := frame.Low();
      if flowStatus == 0 {
        return 0, frame.data[1];
      }
      if flowStatus == 2 {
        return -EMSGSIZE, 0;
      }
      if flowStatus != 1 {
        return -EPROTO, 0;
      }
      waits := waits + 1;
      if waits > MAX_WAITS {
        return -EPROTO, 0;
      }
    }
  }

  /** Sends a payload as one single frame, or as a first frame followed, block
      by block, by consecutive frames. */
  method SendPayload(port: CanPort, l: Link, payload: Payload) returns (ret: int)
    requires !l.wire && port.rxError < 0 && port.txError < 0
    modifies port
    ensures
      var y := Transfer(SendRun(Begin(payload), old(port.inbox), old(port.credits), old(port.trace)), l);
      && port.inbox == y.inbox && port.credits == y.credits && port.trace == y.trace
      && ret == SendCode(y.s.phase.status, port.rxError, port.txError)
  {
    var length := |payload|;
    var frame := new byte[8](_ => 0);
    ghost var s := Begin(payload);
    if length <= 7 {
      FillFirst(frame, payload);
      ret := port.Send(CanFrame(l.txId, l.txExtended, false, 8, frame[..]));
      return;
    }
    if length > MAX_PAYLOAD {
      return -EMSGSIZE;
    }
    FillFirst(frame, payload);
    ret := port.Send(CanFrame(l.txId, l.txExtended, false, 8, frame[..]));
    if ret < 0 {
      return;
    }
    s := AfterEmit(s);
    var blockSize;
    ret, blockSize, s := OpenBlock(port, l, s);
    if ret < 0 {
      return;
    }
    ret := SendConsecutive(port, l, payload, blockSize, s);
  }

  /** Waits for the clear-to-send that opens a block. */
  method OpenBlock(port: CanPort, l: Link, ghost s: Sender) returns (ret: int, blockSize: byte, ghost s': Sender)
    requires s.Valid() && s.phase.AwaitFlow? && s.waits == 0 && !l.wire && port.rxError < 0
    modifies port
    ensures s'.Valid()
    ensures Transfer(SendRun(s, old(port.inbox), old(port.credits), old(port.trace)), l)
         == Transfer(SendRun(s', port.inbox, port.credits, port.trace), l)
    ensures ret >= 0 ==>
              ret == 0 && s' == s.(phase := Emit, blockSize := blockSize, blockCount := 0, waits := s'.waits)
    ensures ret < 0 ==> s'.phase.Ended? && ret == SendCode(s'.phase.status, port.rxError, port.txError)
  {
    ghost var before := SendRun(s, port.inbox, port.credits, port.trace);
    TransferAwaited(before, l);
    AwaitedKeeps(before, l);
    ret, blockSize := WaitFlowControl(port, l, s);
    s' := Awaited(before, l).s;
  }

  method SendConsecutive(port: CanPort, l: Link, payload: Payload, firstBlock: byte, ghost s0: Sender)
    returns (ret: int)
    requires !l.wire && port.rxError < 0 && port.txError < 0
    requires s0.Valid() && s0.payload == payload && s0.phase.Emit? && s0.sent == 1
    requires 7 < |payload| <= MAX_PAYLOAD && s0.blockSize == firstBlock && s0.blockCount == 0
    modifies port
    ensures
      var y := Transfer(SendRun(s0, old(port.inbox), old(port.credits), old(port.trace)), l);
      && port.inbox == y.inbox && port.credits == y.credits && port.trace == y.trace
      && ret == SendCode(y.s.phase.status, port.rxError, port.txError)
  {
    var length := |payload|;
    var frame := new byte[8](_ => 0);
    var blockSize, sequence, copied := firstBlock, 1, 6;
    var blockCount: byte := 0;
    ret := 0;
    ghost var s := s0;
    ghost var goal := Transfer(SendRun(s0, port.inbox, port.credits, port.trace), l);
    while copied < length
      invariant ret == 0 && s.Valid() && s.payload == payload && s.sent >= 1
      invariant if copied < length then copied == 6 + 7 * (s.sent - 1) else copied == length
      invariant sequence == s.sent % 16 && blockCount == s.blockCount < s.sent && blockSize == s.blockSize
      invariant s.phase == if copied < length then Emit else Ended(SendOk)
      invariant Transfer(SendRun(s, port.inbox, port.credits, port.trace), l) == goal
    {
      var chunk := length - copied;
      if chunk > 7 {
        chunk := 7;
      }
      ConsecutiveEnd(payload, s.sent);
      ret, s := EmitConsecutive(port, l, frame, payload, copied, sequence, chunk, s);
      if ret < 0 {
        break;
      }
      copied := copied + chunk;
      sequence := (sequence + 1) % 16;
      blockCount := blockCount + 1;
      if blockSize != 0 && blockCount >= blockSize && copied < length {
        ret, blockSize, s := OpenBlock(port, l, s);
        if ret < 0 {
          break;
        }
        blockCount := 0;
      }
    }
    assert goal == SendRun(s, port.inbox, port.credits, port.trace);
  }

  method SendFlowControl(port: CanPort, l: Link, status: nat) returns (ret: int)
    requires status < 16 && port.txError < 0
    modifies port
    ensures port.inbox == old(port.inbox)
    ensures old(port.credits) == 0 ==> ret == port.txError && port.credits == 0 && port.trace == old(port.trace)
    ensures old(port.credits) > 0 ==>
              && ret == 0 && port.credits == old(port.credits) - 1
              && port.trace == Then(old(port.trace), Tx(FlowFrame(status, l)))
  {
    var frame := new byte[8](_ => 0);
    frame[0], frame[2] := 48 + status % 16, 5;
    assert frame[..] == FlowFrame(status, l).data;
    ret := port.Send(CanFrame(l.txId, l.txExtended, false, 8, frame[..]));
  }

  /** The length a reception reports, on success and failure alike: what a
      well-formed first or single frame announces, or else what the caller set. */
  function ReportedLength(inbox: seq<CanFrame>, capacity: nat): nat {
    if inbox == [] then capacity
    else
      var f := inbox[0];
      if f.Kind() == 0 && f.Low() <= 7 && f.dlc >= f.Low() + 1 then f.Low()
      else if f.Kind() == 1 && f.dlc >= 8 then f.Low() * 256 + f.data[1]
      else capacity
  }

  /** Reassembles one payload into `payload`. */
  method ReceivePayload(port: CanPort, l: Link, payload: array<byte>, capacity: nat) returns (ret: int, length: nat)
    requires port.rxError < 0 && port.txError < 0 && capacity <= payload.Length
    modifies port, payload
    ensures
      var y := Reception(ReceiveRun(AwaitFirst, old(port.inbox), old(port.credits), old(port.trace)),
                         capacity, l, port.rxError, port.txError);
      && port.inbox == y.inbox && port.credits == y.credits && port.trace == y.trace
      && (y.r.Received? ==> ret == 0 && length == |y.r.payload| <= capacity && payload[..length] == y.r.payload)
      && (y.r.Refused? ==> ret == y.r.error)
    ensures length == ReportedLength(old(port.inbox), capacity)
    ensures payload[capacity..] == old(payload[capacity..])
  {
    length := capacity;
    ghost var before := ReceiveRun(AwaitFirst, port.inbox, port.credits, port.trace);
    var r, msg := port.Receive();
    if r < 0 {
      return r, length;
    }
    ghost var read := ReceiveRun(AwaitFirst, port.inbox, port.credits, port.trace);
    assert Reception(before, capacity, l, port.rxError, port.txError)
        == Reception(Answer(read, OnFirst(msg, capacity), l, port.txError), capacity, l, port.rxError, port.txError);
    if msg.dlc == 0 {
      return -EPROTO, length;
    }
    var frameType := msg.Kind();
    if frameType == 0 {
      var total := msg.Low();
      if total > 7 || msg.dlc < total + 1 {
        return -EPROTO, length;
      }
      length := total;
      if total > capacity {
        return -EMSGSIZE, length;
      }
      forall i | 0 <= i < total {
        payload[i] := msg.data[1 + i];
      }
      assert payload[..total] == msg.data[1..1 + total];
      return 0, length;
    }
    if frameType != 1 || msg.dlc < 8 {
      return -EPROTO, length;
    }
    length := msg.Low() * 256 + msg.data[1];
    ret := ReceiveLong(port, l, payload, capacity, length, msg);
  }

  lemma LongReaction(f: CanFrame, capacity: nat)
    requires f.dlc >= 8 && f.Kind() == 1
    ensures
      var total := f.Low() * 256 + f.data[1];
      OnFirst(f, capacity) ==
      if total <= 7 || total > MAX_PAYLOAD || total > capacity then Reaction(Refused(-EMSGSIZE), Some(2))
      else Reaction(Collecting(total, f.data[2..8], 1), Some(0))
  {
  }

  /** Answers the first frame of a long payload and collects the rest. */
  method ReceiveLong(port: CanPort, l: Link, payload: array<byte>, capacity: nat, total: nat, msg: CanFrame)
    returns (ret: int)
    requires port.rxError < 0 && port.txError < 0 && capacity <= payload.Length
    requires msg.dlc >= 8 && msg.Kind() == 1 && total == msg.Low() * 256 + msg.data[1]
    modifies port, payload
    ensures
      var read := ReceiveRun(AwaitFirst, old(port.inbox), old(port.credits), old(port.trace));
      var answered := Answer(read, OnFirst(msg, capacity), l, port.txError);
      var y := Reception(answered, capacity, l, port.rxError, port.txError);
      && port.inbox == y.inbox && port.credits == y.credits && port.trace == y.trace
      && (y.r.Received? ==> ret == 0 && total == |y.r.payload| <= capacity && payload[..total] == y.r.payload)
      && (y.r.Refused? ==> ret == y.r.error)
    ensures payload[capacity..] == old(payload[capacity..])
  {
    hide OnFirst, FlowFrame;
    LongReaction(msg, capacity);
    ghost var answered := Answer(ReceiveRun(AwaitFirst, port.inbox, port.credits, port.trace),
                                 OnFirst(msg, capacity), l, port.txError);
    var r;
    if total <= 7 || total > MAX_PAYLOAD || total > capacity {
      r := SendFlowControl(port, l, 2);
      assert answered == ReceiveRun(Refused(-EMSGSIZE), port.inbox, port.credits, port.trace);
      return -EMSGSIZE;
    }
    forall i | 0 <= i < 6 {
      payload[i] := msg.data[2 + i];
    }
    assert payload[..6] == msg.data[2..8];
    ghost var behind := payload[total..];
    assert behind[capacity - total..] == payload[capacity..] == old(payload[capacity..]);
    r := SendFlowControl(port, l, 0);
    if r < 0 {
      return r;
    }
    assert answered == ReceiveRun(Collecting(total, payload[..6], 1), port.inbox, port.credits, port.trace);
    ret := ReceiveConsecutive(port, l, payload, capacity, total);
    assert payload[capacity..] == behind[capacity - total..];
  }

  method ReceiveConsecutive(port: CanPort, l: Link, payload: array<byte>, capacity: nat, total: nat) returns (ret: int)
    requires port.rxError < 0 && port.txError < 0
    requires 7 < total <= capacity <= payload.Length && total <= MAX_PAYLOAD
    modifies port, payload
    ensures
      var y := Reception(ReceiveRun(Collecting(total, old(payload[..6]), 1), old(port.inbox), old(port.credits),
                                    old(port.trace)), capacity, l, port.rxError, port.txError);
      && port.inbox == y.inbox && port.credits == y.credits && port.trace == y.trace
      && (y.r.Received? ==> ret == 0 && total == |y.r.payload| && payload[..total] == y.r.payload)
      && (y.r.Refused? ==> ret == y.r.error)
    ensures payload[total..] == old(payload[total..])
  {
    var copied, expected := 6, 1;
    ret := 0;
    ghost var x := ReceiveRun(Collecting(total, payload[..6], 1), port.inbox, port.credits, port.trace);
    ghost var goal := Reception(x, capacity, l, port.rxError, port.txError);
    while copied < total
      invariant 6 <= copied <= total && 0 <= expected < 16 && ret == 0
      invariant payload[total..] == old(payload[total..])
      invariant x == ReceiveRun(x.r, port.inbox, port.credits, port.trace)
      invariant x.r == if copied < total then Collecting(total, payload[..copied], expected)
                       else Received(payload[..total])
      invariant goal == Reception(x, capacity, l, port.rxError, port.txError)
      decreases |port.inbox|, total - copied
    {
      var r, msg := port.Receive();
      if r < 0 {
        x, ret := x.(r := Refused(r)), r;
        break;
      }
      x := ReceiveRun(OnConsecutive(x.r, msg), port.inbox, port.credits, port.trace);
      if msg.Kind() != 2 || msg.Low() != expected {
        ret := -EPROTO;
        break;
      }
      var chunk := total - copied;
      if chunk > 7 {
        chunk := 7;
      }
      if msg.dlc < chunk + 1 {
        ret := -EPROTO;
        break;
      }
      CopyOut(payload, copied, msg.data, chunk, total);
      copied := copied + chunk;
      expected := (expected + 1) % 16;
    }
    assert goal == x;
  }

  /** Sends a request and receives its response. */
  method SendAndReceive(port: CanPort, l: Link, request: Payload, response: array<byte>, capacity: nat)
    returns (ret: int, length: nat)
    requires !l.wire && port.rxError < 0 && port.txError < 0 && 0 < capacity <= response.Length
    modifies port, response
    ensures
      var x := Transfer(SendRun(Begin(request), old(port.inbox), old(port.credits), old(port.trace)), l);
      var y := Reception(ReceiveRun(AwaitFirst, x.inbox, x.credits, x.trace), capacity, l, port.rxError, port.txError);
      && (x.s.phase.status != SendOk ==>
            ret == SendCode(x.s.phase.status, port.rxError, port.txError) && port.trace == x.trace)
      && (x.s.phase.status == SendOk ==>
            && port.trace == y.trace && length == ReportedLength(x.inbox, capacity)
            && (y.r.Received? ==> ret == 0 && length == |y.r.payload| <= capacity && response[..length] == y.r.payload)
            && (y.r.Refused? ==> ret == y.r.error))
  {
    length := capacity;
    ret := SendPayload(port, l, request);
    if ret == 0 {
      ret, length := ReceivePayload(port, l, response, capacity);
    }
  }

  function FullMask(extended: bool): nat { if extended then 0x1fff_ffff else 0x7ff }

  /** Such a subscription takes exactly the frames of its identifier, standard or
      extended. */
  lemma TakesOnlyItsResponses(f: CanBus.CanFrame, responseId: nat, extended: bool)
    requires if extended then f.id < 0x2000_0000 && responseId < 0x2000_0000 else f.id < 0x800 && responseId < 0x800
    ensures RouterSpec.Wanted(f, RouterSpec.Open(responseId, FullMask(extended), extended)) <==>
              f.id == responseId && f.extended == extended
  {
    IdentifierBits();
    RouterSpec.FullMaskTakesOne(f, responseId, extended, if extended then 29 else 11);
  }

  lemma IdentifierBits()
    ensures Pow2(11) == 0x800 && Pow2(29) == 0x2000_0000
  {
    assert Pow2(4) == 16 && Pow2(8) == 16 * Pow2(4) && Pow2(11) == 8 * Pow2(8);
    assert Pow2(16) == 32 * Pow2(11) && Pow2(20) == 16 * Pow2(16) && Pow2(24) == 16 * Pow2(20);
    assert Pow2(29) == 32 * Pow2(24);
  }

  /** One request over a subscription of its own, which is closed again whatever
      the outcome; the port stands for what arrives on it meanwhile. */
  method Request(router: CanRouter.Router, port: CanPort, l: Link, responseId: nat, request: Payload,
                 response: array<byte>, capacity: nat)
    returns (ret: int, length: nat)
    requires router.Valid() && port as object !in router.Footprint() && response as object !in router.Footprint()
    requires !l.wire && port.rxError < 0 && port.txError < 0 && capacity <= response.Length
    modifies router, router.Footprint(), port, response
    ensures router.Valid()
    ensures request == [] || |request| > MAX_PAYLOAD || capacity == 0 ==>
              && ret == -EINVAL && router.table == old(router.table)
              && port.trace == old(port.trace) && response[..] == old(response[..])
    ensures
      var slot := RouterSpec.FirstFree(old(router.table).subs, 0);
      1 <= |request| <= MAX_PAYLOAD && capacity > 0 && slot == |router.subs| ==>
        && ret == -ENOSPC && router.table == old(router.table)
        && port.trace == old(port.trace) && response[..] == old(response[..])
    ensures
      var slot := RouterSpec.FirstFree(old(router.table).subs, 0);
      1 <= |request| <= MAX_PAYLOAD && capacity > 0 && slot < |router.subs| ==>
        var opening := RouterSpec.Open(responseId, FullMask(l.txExtended), l.txExtended);
        var open := RouterSpec.Step(old(router.table), opening);
        var x := Transfer(SendRun(Begin(request), old(port.inbox), old(port.credits), old(port.trace)), l);
        var y := Reception(ReceiveRun(AwaitFirst, x.inbox, x.credits, x.trace), capacity, l,
                           port.rxError, port.txError);
        && router.table == RouterSpec.Step(open, RouterSpec.Close(slot))
        && (x.s.phase.status != SendOk ==>
              ret == SendCode(x.s.phase.status, port.rxError, port.txError) && port.trace == x.trace)
        && (x.s.phase.status == SendOk ==>
              && port.trace == y.trace && length == ReportedLength(x.inbox, capacity)
              && (y.r.Received? ==>
                    ret == 0 && length == |y.r.payload| <= capacity && response[..length] == y.r.payload)
              && (y.r.Refused? ==> ret == y.r.error))
  {
    length := capacity;
    if |request| == 0 || |request| > MAX_PAYLOAD || capacity == 0 {
      return -EINVAL, length;
    }
    var subscription;
    ret, subscription := router.Subscribe(responseId, FullMask(l.txExtended), l.txExtended);
    if ret < 0 {
      return;
    }
    ret, length := SendAndReceive(port, l, request, response, capacity);
    var _ := router.Unsubscribe(subscription);
  }
}
