/** The transport frame by frame and octet by octet: which frames a message is,
    which inboxes a reception takes for it, and what the stations answer. */
module IsotpLayout {
  import opened Bytes
  import opened CanBus
  import opened IsotpSpec
  import opened IsotpContract
  import IsotpChannel
  import M7Isotp

  // ---- The frames of a message ---------------------------------------------

  /** Octet `i` of the message, or the padding behind it. */
  function At(p: Payload, i: nat): byte { if i < |p| then p[i] else 0 }

  /** A message of up to seven octets is one frame with its length in front; a
      longer one is a first frame with a length of twelve bits and six octets, and
      consecutive frames with their number modulo 16 and seven octets each, the
      last one padded with zeros (ISO 15765-2). */
  lemma MessageFrames(p: Payload, k: nat)
    requires |p| <= 128 && k < FrameCount(p)
    ensures |p| <= 7 ==>
              k == 0 && Octets(p, k) == [|p|, At(p, 0), At(p, 1), At(p, 2), At(p, 3), At(p, 4), At(p, 5), At(p, 6)]
    ensures |p| > 7 && k == 0 ==>
              Octets(p, 0) == [16, |p|, p[0], p[1], p[2], p[3], p[4], p[5]]
    ensures |p| > 7 && k > 0 ==>
              var n := 7 * k - 1;
              Octets(p, k) == [32 + k % 16, At(p, n), At(p, n + 1), At(p, n + 2), At(p, n + 3), At(p, n + 4),
                               At(p, n + 5), At(p, n + 6)]
    ensures |p| > 7 ==> 7 * (FrameCount(p) - 1) - 1 < |p| <= 7 * FrameCount(p) - 1
  {
    hide Pad7, At;
    if |p| <= 7 {
      Pad7Is(p);
    } else {
      IsotpChannel.CountBounds(p);
      if k > 0 {
        var n := 7 * k - 1;
        var chunk := p[n..EndOf(p, k)];
        Pad7Is(chunk);
        ChunkAt(p, n, EndOf(p, k));
      }
    }
  }

  lemma Pad7Is(s: seq<byte>)
    ensures Pad7(s) == [At(s, 0), At(s, 1), At(s, 2), At(s, 3), At(s, 4), At(s, 5), At(s, 6)]
  {
  }

  lemma ChunkAt(p: Payload, from: nat, to: nat)
    requires from <= to <= |p| && (to == |p| || to == from + 7)
    ensures forall i :: 0 <= i < 7 ==> At(p[from..to], i) == At(p, from + i)
  {
  }

  /** The stations' identifiers: the M7 sends on 0x7e0, the ECU on 0x7e8, both in
      standard data frames of eight octets; the ECU listens to 0x7e0 alone. */
  lemma Addresses(s: Sender, f: CanFrame)
    requires s.Valid() && s.phase.Emit?
    ensures FrameOf(s, M7_LINK) == CanFrame(0x7e0, false, false, 8, Octets(s.payload, s.sent))
    ensures FrameOf(s, ECU_LINK) == CanFrame(0x7e8, false, false, 8, Octets(s.payload, s.sent))
    ensures Addressed(f, ECU_LINK) <==> f.id == 0x7e0 && !f.extended && !f.rtr
    ensures Addressed(f, M7_LINK)
  {
  }

  /** What counts as flow control: at least three octets, the first of 0x30 to
      0x3f, on the wire also the request identifier; its low half is the status. */
  lemma FlowControlIs(f: CanFrame)
    ensures IsFlowControl(f, M7_LINK) <==> f.dlc >= 3 && 0x30 <= f.data[0] <= 0x3f
    ensures IsFlowControl(f, ECU_LINK) <==>
              f.id == 0x7e0 && !f.extended && !f.rtr && f.dlc >= 3 && 0x30 <= f.data[0] <= 0x3f
    ensures IsFlowControl(f, M7_LINK) ==> f.Low() == f.data[0] - 0x30
  {
  }

  // ---- Which inboxes are taken for a message -------------------------------

  /** `f` is consecutive frame `k` of `p`, and long enough for what it carries. */
  predicate IsConsecutive(f: CanFrame, p: Payload, k: nat)
    requires k >= 1
  {
    var at := 7 * k - 1;
    && at < |p| && f.data[0] == 32 + k % 16
    && var n := Min(7, |p| - at);
       f.dlc >= n + 1 && f.data[1..1 + n] == p[at..at + n]
  }

  /** The inbox begins with the frames of `p` from number `k` on. */
  predicate GoesOn(inbox: seq<CanFrame>, p: Payload, k: nat)
    requires k >= 1
    decreases inbox
  {
    7 * k - 1 >= |p| || (inbox != [] && IsConsecutive(inbox[0], p, k) && GoesOn(inbox[1..], p, k + 1))
  }

  /** The inbox begins with a message of `p` that a receiver with room for
      `capacity` octets takes. */
  predicate Holds(inbox: seq<CanFrame>, p: Payload, capacity: nat) {
    && inbox != [] && |p| <= capacity
    && var f := inbox[0];
       if |p| <= 7 then f.data[0] == |p| && f.dlc >= |p| + 1 && f.data[1..1 + |p|] == p
       else
         && |p| <= 128 && f.data[0] == 16 && f.data[1] == |p| && f.dlc >= 8 && f.data[2..8] == p[..6]
         && GoesOn(inbox[1..], p, 1)
  }

  /** Within a reception: from frame `k` on. */
  lemma {:induction false} CollectsExactly(x: ReceiveRun, p: Payload, k: nat, capacity: nat, l: Link,
                                           rxError: int, txError: int)
    requires x.r.Collecting? && ReceiverValid(x.r) && k >= 1
    requires |x.r.stored| == 7 * k - 1 < |p| && x.r.total == |p| && x.r.stored == p[..7 * k - 1]
    requires x.r.expected == k % 16
    ensures Reception(x, capacity, l, rxError, txError).r == Received(p) <==> GoesOn(x.inbox, p, k)
    decreases |x.inbox|
  {
    if x.inbox != [] {
      var f, next := x.inbox[0], OnConsecutive(x.r, x.inbox[0]);
      var y := ReceiveRun(next, x.inbox[1..], x.credits, Then(x.trace, Rx(f)));
      ConsecutiveExactly(x.r, f, p, k);
      OneFrame(x, capacity, l, rxError, txError);
      if IsConsecutive(f, p, k) {
        if next.Collecting? {
          CollectsExactly(y, p, k + 1, capacity, l, rxError, txError);
        }
      } else if next.Collecting? {
        StrayStays(y, p, capacity, l, rxError, txError);
      }
    }
  }

  /** One consecutive frame while collecting. */
  lemma OneFrame(x: ReceiveRun, capacity: nat, l: Link, rxError: int, txError: int)
    requires x.r.Collecting? && ReceiverValid(x.r) && x.inbox != []
    ensures
      var y := ReceiveRun(OnConsecutive(x.r, x.inbox[0]), x.inbox[1..], x.credits, Then(x.trace, Rx(x.inbox[0])));
      Reception(x, capacity, l, rxError, txError) == Reception(y, capacity, l, rxError, txError)
  {
  }

  lemma ConsecutiveExactly(r: Receiver, f: CanFrame, p: Payload, k: nat)
    requires r.Collecting? && ReceiverValid(r) && k >= 1
    requires |r.stored| == 7 * k - 1 < |p| && r.total == |p| && r.stored == p[..7 * k - 1] && r.expected == k % 16
    ensures
      var next := OnConsecutive(r, f);
      if IsConsecutive(f, p, k) then
        next == if 7 * k + 6 >= |p| then Received(p) else Collecting(|p|, p[..7 * k + 6], (k + 1) % 16)
      else next.Refused? || (!(Stored(next) <= p) && (next.Collecting? ==> next.total == |p|))
  {
    var at, n := 7 * k - 1, Min(7, |p| - (7 * k - 1));
    FirstOctetIs(f, k);
    IsotpChannel.NextModulo(k);
    assert p[..at] + p[at..at + n] == p[..at + n];
    if !IsConsecutive(f, p, k) && f.Kind() == 2 && f.Low() == r.expected && f.dlc >= n + 1 {
      var stored := p[..at] + f.data[1..1 + n];
      assert stored[at..] == f.data[1..1 + n];
      if stored <= p {
        assert false;
      }
    }
  }

  lemma FirstOctetIs(f: CanFrame, k: nat)
    ensures f.Kind() == 2 && f.Low() == k % 16 <==> f.data[0] == 32 + k % 16
  {
  }

  function Stored(r: Receiver): seq<byte> {
    match r
    case Collecting(_, stored, _) => stored
    case Received(payload) => payload
    case _ => []
  }

  /** What was stored wrong stays wrong. */
  lemma {:induction false} StrayStays(x: ReceiveRun, p: Payload, capacity: nat, l: Link, rxError: int, txError: int)
    requires x.r.Collecting? && ReceiverValid(x.r) && !(x.r.stored <= p)
    ensures Reception(x, capacity, l, rxError, txError).r != Received(p)
    decreases |x.inbox|
  {
    if x.inbox != [] {
      var next := OnConsecutive(x.r, x.inbox[0]);
      var y := ReceiveRun(next, x.inbox[1..], x.credits, Then(x.trace, Rx(x.inbox[0])));
      OneFrame(x, capacity, l, rxError, txError);
      assert next.Refused? || x.r.stored <= Stored(next);
      if next.Collecting? {
        StrayStays(y, p, capacity, l, rxError, txError);
      }
    }
  }

  /** For every inbox: a reception ends with the message `p` exactly if the inbox
      begins with the frames of `p` and the clear-to-send of a long one goes out. */
  lemma ReceivedExactly(inbox: seq<CanFrame>, credits: nat, trace: Trace, p: Payload, capacity: nat, l: Link,
                        rxError: int, txError: int)
    ensures
      var y := Reception(ReceiveRun(AwaitFirst, inbox, credits, trace), capacity, l, rxError, txError);
      y.r == Received(p) <==> Holds(inbox, p, capacity) && (|p| > 7 ==> credits > 0)
  {
    if inbox != [] {
      var f, x := inbox[0], ReceiveRun(AwaitFirst, inbox, credits, trace);
      var reaction := OnFirst(f, capacity);
      var read := ReceiveRun(AwaitFirst, inbox[1..], credits, Then(trace, Rx(f)));
      var y := Answer(read, reaction, l, txError);
      assert Reception(x, capacity, l, rxError, txError) == Reception(y, capacity, l, rxError, txError);
      FirstExactly(f, p, capacity);
      if y.r.Collecting? {
        if |p| > 7 && y.r.total == |p| && y.r.stored == p[..6] {
          CollectsExactly(y, p, 1, capacity, l, rxError, txError);
        } else {
          TotalStays(y, p, capacity, l, rxError, txError);
        }
      }
    }
  }

  /** A reception that began with another length or other octets ends with another
      message. */
  lemma TotalStays(x: ReceiveRun, p: Payload, capacity: nat, l: Link, rxError: int, txError: int)
    requires x.r.Collecting? && ReceiverValid(x.r) && |x.r.stored| == 6 && x.r.total > 7
    requires !(|p| > 7 && x.r.total == |p| && x.r.stored == p[..6])
    ensures Reception(x, capacity, l, rxError, txError).r != Received(p)
  {
    if |p| >= 6 && x.r.stored == p[..6] {
      LengthStays(x, capacity, l, rxError, txError);
    } else {
      StrayStays(x, p, capacity, l, rxError, txError);
    }
  }

  lemma {:induction false} LengthStays(x: ReceiveRun, capacity: nat, l: Link, rxError: int, txError: int)
    requires x.r.Collecting? && ReceiverValid(x.r)
    ensures
      var y := Reception(x, capacity, l, rxError, txError);
      y.r.Received? ==> |y.r.payload| == x.r.total
    decreases |x.inbox|
  {
    if x.inbox != [] {
      var next := OnConsecutive(x.r, x.inbox[0]);
      OneFrame(x, capacity, l, rxError, txError);
      if next.Collecting? {
        LengthStays(ReceiveRun(next, x.inbox[1..], x.credits, Then(x.trace, Rx(x.inbox[0]))), capacity, l, rxError,
                    txError);
      }
    }
  }

  lemma FirstExactly(f: CanFrame, p: Payload, capacity: nat)
    ensures
      OnFirst(f, capacity).next == Received(p) <==>
        |p| <= 7 && |p| <= capacity && f.data[0] == |p| && f.dlc >= |p| + 1 && f.data[1..1 + |p|] == p
    ensures
      var r := OnFirst(f, capacity).next;
      r.Collecting? && r.total == |p| && |p| > 7 && r.stored == p[..6] <==>
        && 7 < |p| <= 128 && |p| <= capacity && f.data[0] == 16 && f.data[1] == |p| && f.dlc >= 8
        && f.data[2..8] == p[..6]
  {
  }

  // ---- What is refused and what is answered --------------------------------

  /** The reaction to a first frame that begins no message: -EPROTO for an empty
      frame, another kind or a short one, -EMSGSIZE for a length that is out of
      range, and only the latter of a long message is answered, with an overflow. */
  lemma FirstRefused(f: CanFrame, capacity: nat)
    ensures
      var kind, low: nat := f.data[0] / 16, f.data[0] % 16;
      var total := low * 256 + f.data[1];
      OnFirst(f, capacity) ==
      if f.dlc == 0 || kind > 1 || (kind == 0 && (low > 7 || f.dlc <= low)) || (kind == 1 && f.dlc < 8) then
        Reaction(Refused(-71), None)
      else if kind == 0 then Reaction(if low > capacity then Refused(-90) else Received(f.data[1..1 + low]), None)
      else if total < 8 || total > 128 || total > capacity then Reaction(Refused(-90), Some(2))
      else Reaction(Collecting(total, f.data[2..8], 1), Some(0))
  {
  }

  /** A consecutive frame that is not the next one or too short is -EPROTO. */
  lemma ConsecutiveRefused(r: Receiver, f: CanFrame)
    requires r.Collecting? && ReceiverValid(r) && r.expected < 16
    ensures
      var n := Min(7, r.total - |r.stored|);
      OnConsecutive(r, f).Refused? <==> f.data[0] != 32 + r.expected || f.dlc <= n
    ensures OnConsecutive(r, f).Refused? ==> OnConsecutive(r, f).error == -71
  {
  }

  /** The flow control frame with a status: no block limit and 5 ms separation. */
  function FlowOctets(status: nat): seq<int> { [48 + status, 0, 5, 0, 0, 0, 0, 0] }

  lemma {:induction false} CollectingIsSilent(x: ReceiveRun, capacity: nat, l: Link, rxError: int, txError: int)
    requires !x.r.AwaitFirst? && ReceiverValid(x.r)
    ensures Sent(Reception(x, capacity, l, rxError, txError).trace) == Sent(x.trace)
    decreases |x.inbox|
  {
    if x.r.Collecting? && x.inbox != [] {
      OneFrame(x, capacity, l, rxError, txError);
      CollectingIsSilent(ReceiveRun(OnConsecutive(x.r, x.inbox[0]), x.inbox[1..], x.credits,
                                    Then(x.trace, Rx(x.inbox[0]))), capacity, l, rxError, txError);
    }
  }

  /** For every inbox: a reception sends at most one frame.  A first frame with a
      length of 8 to 128 that fits is answered with a clear-to-send, one with any
      other length with an overflow, and nothing else is answered. */
  lemma AnswersExactly(inbox: seq<CanFrame>, credits: nat, trace: Trace, capacity: nat, l: Link,
                       rxError: int, txError: int)
    ensures
      var y := Reception(ReceiveRun(AwaitFirst, inbox, credits, trace), capacity, l, rxError, txError);
      if inbox == [] || credits == 0 || inbox[0].data[0] / 16 != 1 || inbox[0].dlc < 8 then
        Sent(y.trace) == Sent(trace)
      else
        var low: nat := inbox[0].data[0] % 16;
        var total := low * 256 + inbox[0].data[1];
        exists reply: CanFrame ::
          && Sent(y.trace) == Sent(trace) + [reply]
          && reply.id == l.txId && reply.extended == l.txExtended && !reply.rtr && reply.dlc == 8
          && reply.data == FlowOctets(if 8 <= total <= 128 && total <= capacity then 0 else 2)
  {
    if inbox != [] {
      var f, x := inbox[0], ReceiveRun(AwaitFirst, inbox, credits, trace);
      var reaction := OnFirst(f, capacity);
      var read := ReceiveRun(AwaitFirst, inbox[1..], credits, Then(trace, Rx(f)));
      var y := Answer(read, reaction, l, txError);
      assert Reception(x, capacity, l, rxError, txError) == Reception(y, capacity, l, rxError, txError);
      CollectingIsSilent(y, capacity, l, rxError, txError);
      FirstRefused(f, capacity);
      if credits > 0 && reaction.flow.Some? {
        assert Sent(y.trace) == Sent(trace) + [FlowFrame(reaction.flow.value, l)];
      }
    }
  }

  /** What the ECU does with a frame outside a reception, and with any first frame. */
  lemma EcuReacts(rx: EcuRx, f: CanFrame)
    requires rx.Valid()
    ensures
      var kind, low: nat := f.data[0] / 16, f.data[0] % 16;
      var (rx', action) := EcuOnFrame(rx, f);
      && (kind == 0 ==> rx' == rx && action == if low <= 7 && f.dlc > low then Deliver(f.data[1..1 + low]) else Nothing)
      && (kind == 1 ==>
            var total := low * 256 + f.data[1];
            if 8 <= total <= 128 then
              action == Flow(0) && rx'.active && rx'.total == total && rx'.received == 6 && rx'.next == 1
              && rx'.payload[..6] == f.data[2..8]
            else action == Flow(2) && rx' == rx)
      && (kind == 2 && !rx.active ==> rx' == rx && action == Nothing)
      && (kind == 2 && rx.active && f.data[0] != 32 + rx.next ==> rx' == rx.(active := false) && action == Nothing)
      && (kind > 2 ==> rx' == rx && action == Nothing)
  {
  }

  // ---- When the sender waits -----------------------------------------------

  /** A frame is read only behind the first frame, before any clear-to-send, or
      when the block of the last one is used up. */
  ghost predicate ReadsWhenDue(trace: Trace, l: Link) {
    match trace
    case Start => true
    case Then(before, e) =>
      && ReadsWhenDue(before, l)
      && (e.Rx? ==>
            && Sent(before) != []
            && match Observe(before, l)
               case Closed => true
               case Open(size, used) => 0 < size == used)
  }

  ghost predicate Due(x: SendRun, l: Link) {
    && ReadsWhenDue(x.trace, l)
    && (x.s.phase.AwaitFlow? || x.s.sent >= 1 ==> Sent(x.trace) != [])
    && (x.s.phase.Emit? && x.s.sent == 0 ==> Observe(x.trace, l).Closed?)
    && (x.s.phase.Emit? && x.s.sent >= 1 ==>
          Observe(x.trace, l) == Open(x.s.blockSize, x.s.blockCount)
          && (x.s.blockSize != 0 ==> x.s.blockCount < x.s.blockSize))
    && (x.s.phase.AwaitFlow? ==>
          match Observe(x.trace, l)
          case Closed => true
          case Open(size, used) => 0 < size == used)
  }

  lemma AdvanceDue(x: SendRun, l: Link)
    requires x.s.Valid() && !x.s.phase.Ended? && Due(x, l)
    ensures Due(Advance(x, l), l)
  {
    if x.s.phase.Emit? {
      assert FrameOf(x.s, l).Kind() == 2 <==> x.s.sent >= 1;
    }
  }

  lemma {:induction false} TransferDue(x: SendRun, l: Link)
    requires x.s.Valid() && Due(x, l)
    ensures Due(Transfer(x, l), l)
    decreases x.credits + |x.inbox|, if x.s.phase.Ended? then 0 else 1
  {
    if !x.s.phase.Ended? {
      AdvanceDue(x, l);
      TransferDue(Advance(x, l), l);
    }
  }

  /** The sender waits for flow control only when it is due: with TransferPaced,
      it stops exactly at the end of each block. */
  lemma WaitsOnlyWhenDue(p: Payload, inbox: seq<CanFrame>, credits: nat, l: Link)
    requires |p| <= 128
    ensures ReadsWhenDue(Transfer(SendRun(Begin(p), inbox, credits, Start), l).trace, l)
  {
    TransferDue(SendRun(Begin(p), inbox, credits, Start), l);
  }

  /** The codes of a transfer: 0, -EMSGSIZE for a message that is too long or an
      overflow, -EPROTO for a wrong status or a fourth wait, and the errors of the
      port for silence and a failed transmission. */
  lemma SendCodes(rxError: int, txError: int)
    ensures M7Isotp.SendCode(SendOk, rxError, txError) == 0
    ensures M7Isotp.SendCode(SendTooLong, rxError, txError) == -90
    ensures M7Isotp.SendCode(SendOverflow, rxError, txError) == -90
    ensures M7Isotp.SendCode(SendProtocol, rxError, txError) == -71
    ensures M7Isotp.SendCode(SendStarved, rxError, txError) == rxError
    ensures M7Isotp.SendCode(SendTxFailed, rxError, txError) == txError
  {
  }
}
