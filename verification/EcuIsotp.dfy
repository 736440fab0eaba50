/** The simulated ECU's side of the transport: a receive context updated frame
    by frame, and its own sender. */
module EcuIsotp {
  import opened Bytes
  import opened CanBus
  import opened IsotpSpec
  import opened FrameBuffer

  class EcuStation {
    var active: bool
    var total: nat
    var received: nat
    var nextSequence: nat
    const payload: array<byte>
    const port: CanPort

    ghost function View(): EcuRx
      reads this, payload
    {
      EcuRx(active, total, received, nextSequence, payload[..])
    }

    ghost predicate Valid()
      reads this, payload
    {
      View().Valid()
    }

    constructor (port: CanPort)
      ensures Valid() && !active && this.port == port && fresh(payload)
    {
      active, total, received, nextSequence := false, 0, 0, 0;
      payload := new byte[MAX_PAYLOAD](_ => 0);
      this.port := port;
    }

    /** Consumes one frame addressed to the ECU.  A completed request is handed
        to the caller; its answer is sent there. */
    method HandleIsotpFrame(frame: CanFrame) returns (request: Option<Payload>)
      requires Valid() && port.txError < 0
      modifies this, payload, port
      ensures View() == EcuOnFrame(old(View()), frame).0
      ensures Valid()
      ensures request == match EcuOnFrame(old(View()), frame).1 case Deliver(r) => Some(r) case _ => None
      ensures port.inbox == old(port.inbox)
      ensures port.trace == match EcuOnFrame(old(View()), frame).1
                            case Flow(status) => if old(port.credits) == 0 then old(port.trace)
                                                 else Then(old(port.trace), Tx(FlowFrame(status, ECU_LINK)))
                            case _ => old(port.trace)
      ensures port.credits == old(port.credits) -
                if EcuOnFrame(old(View()), frame).1.Flow? && old(port.credits) > 0 then 1 else 0
    {
      request := None;
      var kind := frame.Kind();
      if kind == 0 {
        var length := frame.Low();
        if length <= 7 && frame.dlc >= length + 1 {
          request := Some(frame.data[1..1 + length]);
        }
      } else if kind == 1 {
        var announced := frame.Low() * 256 + frame.data[1];
        if announced <= 7 || announced > MAX_PAYLOAD {
          SendFlowControl(2);
          return;
        }
        active, total, received, nextSequence := true, announced, 6, 1;
        Store(0, frame.data[2..8]);
        SendFlowControl(0);
      } else if kind == 2 && active {
        request := HandleConsecutive(frame);
      }
    }

    /** A consecutive frame while a request is being received. */
    method HandleConsecutive(frame: CanFrame) returns (request: Option<Payload>)
      requires Valid() && active && frame.Kind() == 2
      modifies this, payload
      ensures View() == EcuOnFrame(old(View()), frame).0 && Valid()
      ensures !EcuOnFrame(old(View()), frame).1.Flow?
      ensures request == match EcuOnFrame(old(View()), frame).1 case Deliver(r) => Some(r) case _ => None
    {
      request := None;
      if frame.Low() != nextSequence {
        active := false;
        return;
      }
      var chunk := Min(7, total - received);
      Store(received, frame.data[1..1 + chunk]);
      received := received + chunk;
      nextSequence := (nextSequence + 1) % 16;
      if received == total {
        active := false;
        request := Some(payload[..total]);
      }
    }

    /** memcpy into the receive context. */
    method Store(at: nat, octets: seq<byte>)
      requires at + |octets| <= payload.Length
      modifies payload
      ensures payload[..] == Write(old(payload[..]), at, octets)
    {
      forall i | 0 <= i < |octets| {
        payload[at + i] := octets[i];
      }
    }

    method SendFlowControl(status: nat)
      requires status < 16
      modifies port
      ensures port.inbox == old(port.inbox)
      ensures port.trace == if old(port.credits) == 0 then old(port.trace)
                            else Then(old(port.trace), Tx(FlowFrame(status, ECU_LINK)))
      ensures port.credits == old(port.credits) - if old(port.credits) > 0 then 1 else 0
    {
      var frame := new byte[8](_ => 0);
      frame[0], frame[2] := 48 + status % 16, 5;
      assert frame[..] == FlowFrame(status, ECU_LINK).data;
      var _ := port.Send(CanFrame(ECU_RESPONSE_ID, false, false, 8, frame[..]));
    }
  }

  method WaitFlowControl(port: CanPort, ghost s: Sender) returns (ok: bool, blockSize: byte, ghost s': Sender)
    requires s.Valid() && s.phase.AwaitFlow? && s.waits == 0 && port.rxError < 0
    modifies port
    ensures s'.Valid()
    ensures Transfer(SendRun(s, old(port.inbox), old(port.credits), old(port.trace)), ECU_LINK)
         == Transfer(SendRun(s', port.inbox, port.credits, port.trace), ECU_LINK)
    ensures ok ==> s' == s.(phase := Emit, blockSize := blockSize, blockCount := 0, waits := s'.waits)
    ensures !ok ==> s'.phase.Ended? && s'.phase.status != SendOk
  {
    var waits := 0;
    ok, blockSize, s' := false, 0, s;
    ghost var goal := Transfer(SendRun(s, port.inbox, port.credits, port.trace), ECU_LINK);
    while true
      invariant s'.Valid() && s' == s.(waits := waits)
      invariant Transfer(SendRun(s', port.inbox, port.credits, port.trace), ECU_LINK) == goal
      decreases |port.inbox|
    {
      var r, frame := port.Receive();
      if r < 0 {
        s' := s'.(phase := Ended(SendStarved));
        break;
      }
      s' := OnFlow(s', frame, ECU_LINK);
      if frame.id != ECU_REQUEST_ID || frame.extended || frame.rtr || frame.dlc < 3 || frame.Kind() != 3 {
        continue;
      }
      var status := frame.Low();
      if status == 0 {
        ok, blockSize := true, frame.data[1];
        break;
      }
      if status != 1 {
        break;
      }
      waits := waits + 1;
      if waits > MAX_WAITS {
        break;
      }
    }
  }

  /** Sends a response of at most 128 octets; an empty one is refused. */
  method SendPayload(port: CanPort, payload: Payload) returns (ok: bool)
    requires port.rxError < 0 && port.txError < 0
    modifies port
    ensures payload == [] ==> !ok && port.trace == old(port.trace)
    ensures payload != [] ==>
              var y := Transfer(SendRun(Begin(payload), old(port.inbox), old(port.credits), old(port.trace)), ECU_LINK);
              && port.inbox == y.inbox && port.credits == y.credits && port.trace == y.trace
              && (ok <==> y.s.phase.status == SendOk)
  {
    var length := |payload|;
    if length == 0 || length > MAX_PAYLOAD {
      return false;
    }
    var frame := new byte[8](_ => 0);
    FillFirst(frame, payload);
    var r := port.Send(CanFrame(ECU_RESPONSE_ID, false, false, 8, frame[..]));
    if length <= 7 || r != 0 {
      return r == 0;
    }
    ghost var s := AfterEmit(Begin(payload));
    var blockSize;
    ok, blockSize, s := WaitFlowControl(port, s);
    if !ok {
      return false;
    }
    ok := SendConsecutive(port, payload, blockSize, s);
  }

  method SendConsecutive(port: CanPort, payload: Payload, firstBlock: byte, ghost s0: Sender) returns (ok: bool)
    requires port.rxError < 0 && port.txError < 0
    requires s0.Valid() && s0.payload == payload && s0.phase.Emit? && s0.sent == 1
    requires 7 < |payload| <= MAX_PAYLOAD && s0.blockSize == firstBlock && s0.blockCount == 0
    modifies port
    ensures
      var y := Transfer(SendRun(s0, old(port.inbox), old(port.credits), old(port.trace)), ECU_LINK);
      && port.inbox == y.inbox && port.credits == y.credits && port.trace == y.trace
      && (ok <==> y.s.phase.status == SendOk)
  {
    var length := |payload|;
    var frame := new byte[8](_ => 0);
    var blockSize, sequence, copied := firstBlock, 1, 6;
    var blockCount: byte := 0;
    ok := true;
    ghost var s := s0;
    ghost var goal := Transfer(SendRun(s0, port.inbox, port.credits, port.trace), ECU_LINK);
    while copied < length
      invariant ok && s.Valid() && s.payload == payload && s.sent >= 1
      invariant if copied < length then copied == 6 + 7 * (s.sent - 1) else copied == length
      invariant sequence == s.sent % 16 && blockCount == s.blockCount < s.sent && blockSize == s.blockSize
      invariant s.phase == if copied < length then Emit else Ended(SendOk)
      invariant Transfer(SendRun(s, port.inbox, port.credits, port.trace), ECU_LINK) == goal
    {
      var chunk := Min(7, length - copied);
      ConsecutiveEnd(payload, s.sent);
      var r;
      r, s := EmitConsecutive(port, ECU_LINK, frame, payload, copied, sequence, chunk, s);
      if r != 0 {
        ok := false;
        break;
      }
      copied := copied + chunk;
      sequence := (sequence + 1) % 16;
      blockCount := blockCount + 1;
      if blockSize != 0 && blockCount >= blockSize && copied < length {
        ok, blockSize, s := WaitFlowControl(port, s);
        if !ok {
          break;
        }
        blockCount := 0;
      }
    }
    assert goal == SendRun(s, port.inbox, port.credits, port.trace);
  }
}
