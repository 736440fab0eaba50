/** What the two receivers make of a channel that keeps order but may lose and
    duplicate the frames of one message. */
module IsotpChannel {
  import opened Bytes
  import opened CanBus
  import opened IsotpSpec

  /** `inbox[i]` is frame `ix[i]` of the message; order is kept, frames may be
      missing and may repeat. */
  ghost predicate Carries(inbox: seq<CanFrame>, ix: seq<nat>, p: Payload) {
    && |p| <= MAX_PAYLOAD
    && |ix| == |inbox|
    && (forall i, j :: 0 <= i < j < |ix| ==> ix[i] <= ix[j])
    && (forall i :: 0 <= i < |ix| ==>
          ix[i] < FrameCount(p) && inbox[i].dlc == 8 && inbox[i].data == Octets(p, ix[i]))
  }

  lemma CarriesTail(inbox: seq<CanFrame>, ix: seq<nat>, p: Payload)
    requires Carries(inbox, ix, p) && inbox != []
    ensures Carries(inbox[1..], ix[1..], p) && forall i :: 0 <= i < |ix| - 1 ==> ix[0] <= ix[1..][i]
  {
  }

  // ---- The M7 receiver -----------------------------------------------------

  /** After `a` accepted frames, the last of them number `j`: the numbers agree
      modulo 16, `j` is never behind, and as long as it is not ahead the stored
      octets are a prefix of the message. */
  ghost predicate Tracks(r: Receiver, p: Payload, a: nat, j: nat) {
    && (r.Received? ==> r.payload == p)
    && (r.Collecting? ==>
          && 7 < |p| <= MAX_PAYLOAD && r.total == |p|
          && 1 <= a <= j + 1 <= FrameCount(p)
          && |r.stored| == 6 + 7 * (a - 1) < |p|
          && r.expected == a % 16 && j % 16 == (a - 1) % 16
          && (j == a - 1 ==> r.stored == p[..|r.stored|]))
  }

  lemma FirstTracks(f: CanFrame, p: Payload, i: nat, capacity: nat)
    requires |p| <= MAX_PAYLOAD && i < FrameCount(p) && f.dlc == 8 && f.data == Octets(p, i)
    ensures Tracks(OnFirst(f, capacity).next, p, 1, 0)
    ensures OnFirst(f, capacity).next.Collecting? || OnFirst(f, capacity).next.Received? ==> i == 0
  {
    if |p| <= 7 {
      assert f.data[1..1 + |p|] == p;
    } else if i == 0 {
      assert f.data[2..8] == p[..6];
    }
  }

  lemma CountBounds(p: Payload)
    requires |p| > 7
    ensures 7 * (FrameCount(p) - 1) <= |p| < 7 * FrameCount(p)
  {
  }

  /** The octets an in-order consecutive frame carries. */
  lemma ConsecutiveCarries(p: Payload, k: nat)
    requires 7 < |p| <= MAX_PAYLOAD && 1 <= k < FrameCount(p)
    ensures 6 + 7 * (k - 1) < |p|
    ensures Octets(p, k)[0] == 32 + k % 16
    ensures
      var n := Min(7, |p| - (6 + 7 * (k - 1)));
      p[..6 + 7 * (k - 1)] + Octets(p, k)[1..1 + n] == p[..6 + 7 * (k - 1) + n]
    ensures |p| <= 6 + 7 * k <==> k + 1 == FrameCount(p)
  {
    CountBounds(p);
    var at := 6 + 7 * (k - 1);
    var n := Min(7, |p| - at);
    var chunk := p[at..EndOf(p, k)];
    assert |chunk| == n;
    assert Octets(p, k) == [32 + k % 16] + Pad7(chunk);
    assert Octets(p, k)[1..1 + n] == chunk;
    assert p[..at] + chunk == p[..at + n];
  }

  lemma ModuloAhead(i: nat, j: nat, a: nat)
    requires 1 <= a <= j + 1 && j <= i && j % 16 == (a - 1) % 16 && i % 16 == a % 16
    ensures a <= i && (i == a ==> j == a - 1)
  {
  }

  lemma NextModulo(a: nat)
    ensures (a % 16 + 1) % 16 == (a + 1) % 16
  {
  }

  lemma ConsecutiveTracks(r: Receiver, f: CanFrame, p: Payload, i: nat, a: nat, j: nat)
    requires r.Collecting? && Tracks(r, p, a, j) && j <= i < FrameCount(p)
    requires f.dlc == 8 && f.data == Octets(p, i)
    ensures var n := OnConsecutive(r, f); n.Refused? || Tracks(n, p, a + 1, i)
  {
    if i >= 1 {
      ConsecutiveCarries(p, i);
      var n := OnConsecutive(r, f);
      if !n.Refused? {
        ModuloAhead(i, j, a);
        ConsecutiveCarries(p, a);
        NextModulo(a);
      }
    }
  }

  /** A reception that tracks its message can only end with that message. */
  lemma {:induction false} CollectionSafe(x: ReceiveRun, p: Payload, ix: seq<nat>, a: nat, j: nat,
                                          capacity: nat, l: Link, rxError: int, txError: int)
    requires !x.r.AwaitFirst? && ReceiverValid(x.r) && Tracks(x.r, p, a, j) && Carries(x.inbox, ix, p)
    requires forall i :: 0 <= i < |ix| ==> j <= ix[i]
    ensures var y := Reception(x, capacity, l, rxError, txError); y.r.Received? ==> y.r.payload == p
    decreases |x.inbox|
  {
    if x.r.Collecting? && x.inbox != [] {
      CarriesTail(x.inbox, ix, p);
      ConsecutiveTracks(x.r, x.inbox[0], p, ix[0], a, j);
      var next := OnConsecutive(x.r, x.inbox[0]);
      var x1 := ReceiveRun(next, x.inbox[1..], x.credits, Then(x.trace, Rx(x.inbox[0])));
      assert Answer(x.(inbox := x1.inbox, trace := x1.trace), OnResponse(x.r, x.inbox[0], capacity), l, txError) == x1;
      if next.Collecting? {
        CollectionSafe(x1, p, ix[1..], a + 1, ix[0], capacity, l, rxError, txError);
      }
    }
  }

  /** Whenever the M7 reports success over an in-order channel that lost or
      duplicated frames of one message, it returns that message, although the
      sequence number wraps at 16. */
  lemma NoWrongPayload(inbox: seq<CanFrame>, ix: seq<nat>, p: Payload, credits: nat, trace: Trace,
                       capacity: nat, l: Link, rxError: int, txError: int)
    requires Carries(inbox, ix, p)
    ensures
      var y := Reception(ReceiveRun(AwaitFirst, inbox, credits, trace), capacity, l, rxError, txError);
      y.r.Received? ==> y.r.payload == p
  {
    if inbox != [] {
      CarriesTail(inbox, ix, p);
      FirstTracks(inbox[0], p, ix[0], capacity);
      var read := ReceiveRun(AwaitFirst, inbox[1..], credits, Then(trace, Rx(inbox[0])));
      var x1 := Answer(read, OnResponse(AwaitFirst, inbox[0], capacity), l, txError);
      CollectionSafe(x1, p, ix[1..], 1, 0, capacity, l, rxError, txError);
    }
  }

  // ---- The ECU receiver ----------------------------------------------------

  /** The requests handed over while the ECU consumes `frames`. */
  function EcuConsume(rx: EcuRx, frames: seq<CanFrame>): (r: (EcuRx, seq<Payload>))
    requires rx.Valid()
    ensures r.0.Valid()
    decreases |frames|
  {
    if frames == [] then (rx, [])
    else
      var (rx1, action) := EcuOnFrame(rx, frames[0]);
      var (rx2, rest) := EcuConsume(rx1, frames[1..]);
      (rx2, if action.Deliver? then [action.request] + rest else rest)
  }

  ghost predicate EcuTracks(rx: EcuRx, p: Payload, a: nat, j: nat) {
    && rx.Valid()
    && (rx.active ==>
          && 7 < |p| && rx.total == |p|
          && 1 <= a <= j + 1 <= FrameCount(p)
          && rx.received == 6 + 7 * (a - 1)
          && j % 16 == (a - 1) % 16
          && (j == a - 1 ==> rx.payload[..rx.received] == p[..rx.received]))
  }

  /** The octets stored by an accepted consecutive frame. */
  lemma EcuStoreTracks(rx: EcuRx, f: CanFrame, p: Payload, i: nat, a: nat, j: nat)
    requires |p| <= MAX_PAYLOAD && rx.active && EcuTracks(rx, p, a, j) && j <= i < FrameCount(p)
    requires f.data == Octets(p, i) && f.Kind() == 2 && f.Low() == rx.next
    ensures a <= i && i % 16 == a % 16 && rx.next == a % 16
    ensures
      var rx' := EcuStore(rx, f);
      && (rx'.received < rx'.total ==> EcuTracks(rx', p, a + 1, i))
      && (rx'.received == rx'.total ==> rx'.payload[..rx'.total] == p)
  {
    ConsecutiveCarries(p, i);
    assert rx.next == a % 16;
    ModuloAhead(i, j, a);
    ConsecutiveCarries(p, a);
    var rx' := EcuStore(rx, f);
    var n := Min(7, |p| - rx.received);
    assert rx'.payload[..rx'.received] == rx.payload[..rx.received] + f.data[1..1 + n];
  }

  lemma EcuStepTracks(rx: EcuRx, f: CanFrame, p: Payload, i: nat, a: nat, j: nat) returns (a': nat, j': nat)
    requires |p| <= MAX_PAYLOAD && EcuTracks(rx, p, a, j) && i < FrameCount(p) && (rx.active ==> j <= i)
    requires f.dlc == 8 && f.data == Octets(p, i)
    ensures EcuTracks(EcuOnFrame(rx, f).0, p, a', j')
    ensures EcuOnFrame(rx, f).0.active ==> j' <= i
    ensures EcuOnFrame(rx, f).1.Deliver? ==> EcuOnFrame(rx, f).1.request == p
  {
    a', j' := a, j;
    if |p| <= 7 {
      assert f.data[1..1 + |p|] == p;
    } else if i == 0 {
      a', j' := 1, 0;
      assert f.data[2..8] == p[..6];
    } else {
      ConsecutiveCarries(p, i);
      if rx.active && f.Low() == rx.next {
        EcuStoreTracks(rx, f, p, i, a, j);
        a', j' := a + 1, i;
      }
    }
  }

  lemma {:induction false} EcuCollectionSafe(rx: EcuRx, frames: seq<CanFrame>, ix: seq<nat>, p: Payload, a: nat, j: nat)
    requires Carries(frames, ix, p) && EcuTracks(rx, p, a, j)
    requires rx.active ==> forall i :: 0 <= i < |ix| ==> j <= ix[i]
    ensures forall q :: q in EcuConsume(rx, frames).1 ==> q == p
    decreases |frames|
  {
    if frames != [] {
      CarriesTail(frames, ix, p);
      var a', j' := EcuStepTracks(rx, frames[0], p, ix[0], a, j);
      EcuCollectionSafe(EcuOnFrame(rx, frames[0]).0, frames[1..], ix[1..], p, a', j');
    }
  }

  /** A first frame starts over, whatever the context was doing. */
  lemma EcuStartsOver(rx: EcuRx, f: CanFrame, p: Payload)
    requires rx.Valid() && 7 < |p| <= MAX_PAYLOAD && f.dlc == 8 && f.data == Octets(p, 0)
    ensures EcuTracks(EcuOnFrame(rx, f).0, p, 1, 0) && !EcuOnFrame(rx, f).1.Deliver?
  {
    assert f.data[2..8] == p[..6];
  }

  /** A single frame leaves the context alone. */
  lemma {:induction false} EcuSingleFrames(rx: EcuRx, frames: seq<CanFrame>, ix: seq<nat>, p: Payload)
    requires Carries(frames, ix, p) && rx.Valid() && |p| <= 7
    ensures forall q :: q in EcuConsume(rx, frames).1 ==> q == p
    decreases |frames|
  {
    if frames != [] {
      CarriesTail(frames, ix, p);
      assert frames[0].data[1..1 + |p|] == p;
      EcuSingleFrames(rx, frames[1..], ix[1..], p);
    }
  }

  /** Over the same channel the ECU hands over nothing but the message, whatever
      an earlier message left in its context, if the message's first frame is the
      first to arrive; an idle context does not even need that. */
  lemma EcuNoWrongPayload(rx: EcuRx, frames: seq<CanFrame>, ix: seq<nat>, p: Payload)
    requires Carries(frames, ix, p) && rx.Valid()
    requires rx.active && frames != [] ==> ix[0] == 0
    ensures forall q :: q in EcuConsume(rx, frames).1 ==> q == p
  {
    if !rx.active {
      EcuCollectionSafe(rx, frames, ix, p, 1, 0);
    } else if |p| <= 7 {
      EcuSingleFrames(rx, frames, ix, p);
    } else if frames != [] {
      CarriesTail(frames, ix, p);
      EcuStartsOver(rx, frames[0], p);
      EcuCollectionSafe(EcuOnFrame(rx, frames[0]).0, frames[1..], ix[1..], p, 1, 0);
    }
  }
}
