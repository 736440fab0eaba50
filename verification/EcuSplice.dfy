/** What the ECU makes of a message whose first frame did not reach it while an
    earlier message was still being received: exactly when it splices the two,
    and how that can come about. */
module EcuSplice {
  import opened Bytes
  import opened CanBus
  import opened IsotpSpec
  import opened IsotpChannel
  import opened IsotpExchange
  import opened Errno

  // ---- The exact condition -------------------------------------------------

  /** How many consecutive frames the reception still needs. */
  function Needed(rx: EcuRx): (n: nat)
    requires rx.Valid() && rx.active
    ensures n >= 1 && 7 * (n - 1) < rx.total - rx.received <= 7 * n
  {
    (rx.total - rx.received + 6) / 7
  }

  ghost predicate AllConsecutive(frames: seq<CanFrame>) {
    forall i :: 0 <= i < |frames| ==> frames[i].Kind() == 2
  }

  /** Enough frames arrive and the first of them carry the awaited numbers. */
  ghost predicate Continues(rx: EcuRx, frames: seq<CanFrame>)
    requires rx.Valid() && rx.active
  {
    && Needed(rx) <= |frames|
    && forall i :: 0 <= i < Needed(rx) ==> frames[i].Low() == (rx.next + i) % 16
  }

  /** The data octets of consecutive frames, one after the other. */
  function DataOf(frames: seq<CanFrame>): (r: seq<byte>)
    ensures |r| == 7 * |frames|
  {
    if frames == [] then [] else frames[0].data[1..] + DataOf(frames[1..])
  }

  /** What was received before, followed by the data that arrived. */
  function Completed(rx: EcuRx, frames: seq<CanFrame>): (r: Payload)
    requires rx.Valid() && rx.active && Needed(rx) <= |frames|
    ensures |r| == rx.total
  {
    rx.payload[..rx.received] + DataOf(frames)[..rx.total - rx.received]
  }

  lemma {:induction false} IdleIgnores(rx: EcuRx, frames: seq<CanFrame>)
    requires rx.Valid() && !rx.active && AllConsecutive(frames)
    ensures EcuConsume(rx, frames) == (rx, [])
    decreases |frames|
  {
    if frames != [] {
      assert EcuOnFrame(rx, frames[0]) == (rx, Nothing);
      IdleIgnores(rx, frames[1..]);
    }
  }

  /** The frame that completes the reception. */
  lemma StoreLast(rx: EcuRx, frames: seq<CanFrame>)
    requires rx.Valid() && rx.active && frames != [] && rx.total - rx.received <= 7
    ensures
      var rx' := EcuStore(rx, frames[0]);
      rx'.received == rx'.total && Needed(rx) == 1 && rx'.payload[..rx'.total] == Completed(rx, frames)
  {
    var n := rx.total - rx.received;
    var data := frames[0].data[1..];
    var rx' := EcuStore(rx, frames[0]);
    assert rx'.payload[..rx'.total] == rx'.payload[..rx.received] + rx'.payload[rx.received..rx'.total];
    assert DataOf(frames)[..n] == data[..n] == frames[0].data[1..1 + n];
  }

  /** Any other frame leaves the same completed payload to come. */
  lemma StoreOne(rx: EcuRx, frames: seq<CanFrame>)
    requires rx.Valid() && rx.active && frames != [] && rx.total - rx.received > 7
    ensures
      var rx' := EcuStore(rx, frames[0]);
      && rx'.Valid() && rx'.active && Needed(rx') == Needed(rx) - 1 && rx'.next == (rx.next + 1) % 16
      && (Needed(rx') <= |frames| - 1 ==> Completed(rx', frames[1..]) == Completed(rx, frames))
  {
    var rx' := EcuStore(rx, frames[0]);
    if Needed(rx') <= |frames| - 1 {
      var left := rx'.total - rx'.received;
      var data, more := frames[0].data[1..], DataOf(frames[1..]);
      assert DataOf(frames) == data + more;
      assert (data + more)[..7 + left] == data + more[..left];
      assert rx'.payload[..rx'.received] == rx.payload[..rx.received] + data;
    }
  }

  lemma NextNumber(n: nat, i: nat)
    ensures ((n + 1) % 16 + i) % 16 == (n + (i + 1)) % 16
  {
  }

  lemma ContinuesOn(frames: seq<CanFrame>, next: nat, n: nat)
    requires n <= |frames| && forall i :: 0 <= i < n ==> frames[i].Low() == (next + i) % 16
    ensures forall i :: 0 <= i < n - 1 ==> frames[1..][i].Low() == ((next + 1) % 16 + i) % 16
  {
    forall i | 0 <= i < n - 1 ensures frames[1..][i].Low() == ((next + 1) % 16 + i) % 16 {
      assert frames[i + 1].Low() == (next + (i + 1)) % 16;
      NextNumber(next, i);
    }
  }

  lemma ContinuesBack(frames: seq<CanFrame>, next: nat, n: nat)
    requires 1 <= n <= |frames| && frames[0].Low() == next < 16
    requires forall i :: 0 <= i < n - 1 ==> frames[1..][i].Low() == ((next + 1) % 16 + i) % 16
    ensures forall i :: 0 <= i < n ==> frames[i].Low() == (next + i) % 16
  {
    forall i | 0 < i < n ensures frames[i].Low() == (next + i) % 16 {
      assert frames[1..][i - 1].Low() == ((next + 1) % 16 + (i - 1)) % 16;
      NextNumber(next, i - 1);
    }
  }

  lemma ContinuesNext(rx: EcuRx, rx': EcuRx, frames: seq<CanFrame>)
    requires rx.Valid() && rx.active && rx'.Valid() && rx'.active && frames != [] && frames[0].Low() == rx.next
    requires Needed(rx') == Needed(rx) - 1 && rx'.next == (rx.next + 1) % 16
    ensures Continues(rx, frames) <==> Continues(rx', frames[1..])
  {
    if Continues(rx', frames[1..]) {
      ContinuesBack(frames, rx.next, Needed(rx));
    }
    if Continues(rx, frames) {
      ContinuesOn(frames, rx.next, Needed(rx));
    }
  }

  lemma ConsumesFirst(rx: EcuRx, frames: seq<CanFrame>, rx': EcuRx, action: EcuAction)
    requires rx.Valid() && frames != [] && EcuOnFrame(rx, frames[0]) == (rx', action)
    ensures EcuConsume(rx, frames).1 ==
            if action.Deliver? then [action.request] + EcuConsume(rx', frames[1..]).1
            else EcuConsume(rx', frames[1..]).1
  {
    var all, rest := EcuConsume(rx, frames), EcuConsume(rx', frames[1..]);
    assert all.1 == if action.Deliver? then [action.request] + rest.1 else rest.1;
  }

  lemma ConsumesWrongNumber(rx: EcuRx, frames: seq<CanFrame>)
    requires rx.Valid() && rx.active && AllConsecutive(frames) && frames != [] && frames[0].Low() != rx.next
    ensures EcuConsume(rx, frames).1 == [] && !Continues(rx, frames)
  {
    var rx' := rx.(active := false);
    ConsumesFirst(rx, frames, rx', Nothing);
    IdleIgnores(rx', frames[1..]);
    assert (rx.next + 0) % 16 == rx.next != frames[0].Low();
  }

  lemma {:induction false} ConsumesLast(rx: EcuRx, frames: seq<CanFrame>)
    requires rx.Valid() && rx.active && AllConsecutive(frames) && frames != [] && frames[0].Low() == rx.next
    requires rx.total - rx.received <= 7
    ensures Needed(rx) == 1 && EcuConsume(rx, frames).1 == [Completed(rx, frames)]
  {
    var rx' := EcuStore(rx, frames[0]).(active := false);
    LastDelivers(rx, frames);
    ConsumesFirst(rx, frames, rx', Deliver(Completed(rx, frames)));
    IdleIgnores(rx', frames[1..]);
  }

  lemma LastDelivers(rx: EcuRx, frames: seq<CanFrame>)
    requires rx.Valid() && rx.active && AllConsecutive(frames) && frames != [] && frames[0].Low() == rx.next
    requires rx.total - rx.received <= 7
    ensures Needed(rx) == 1
    ensures EcuOnFrame(rx, frames[0]) == (EcuStore(rx, frames[0]).(active := false), Deliver(Completed(rx, frames)))
  {
    StoreLast(rx, frames);
    assert frames[0].Kind() == 2;
  }

  /** A context that is receiving, given only consecutive frames, hands over one
      payload exactly if enough of them come with the awaited numbers, wherever
      they come from, and then it is what it had, completed by their data. */
  lemma {:induction false} ConsumesExactly(rx: EcuRx, frames: seq<CanFrame>)
    requires rx.Valid() && rx.active && AllConsecutive(frames)
    ensures EcuConsume(rx, frames).1 == if Continues(rx, frames) then [Completed(rx, frames)] else []
    decreases |frames|
  {
    hide Completed, Needed, DataOf;
    if frames == [] {
    } else if frames[0].Low() != rx.next {
      ConsumesWrongNumber(rx, frames);
    } else if rx.total - rx.received <= 7 {
      ConsumesLast(rx, frames);
      assert (rx.next + 0) % 16 == rx.next;
    } else {
      StoreOne(rx, frames);
      var rx' := EcuStore(rx, frames[0]);
      ContinuesNext(rx, rx', frames);
      assert frames[0].Kind() == 2 && EcuOnFrame(rx, frames[0]) == (rx', Nothing);
      ConsumesFirst(rx, frames, rx', Nothing);
      ConsumesExactly(rx', frames[1..]);
    }
  }

  /** Over an in-order channel that loses and duplicates frames of `q`, the ECU
      hands over something else exactly if it was still receiving, the first frame
      of `q` is not the first to arrive, and frames of `q` that do arrive carry the
      numbers it awaits and complete another payload. */
  lemma SplicesExactly(rx: EcuRx, frames: seq<CanFrame>, ix: seq<nat>, q: Payload)
    requires Carries(frames, ix, q) && rx.Valid()
    ensures (exists d :: d in EcuConsume(rx, frames).1 && d != q) <==>
              && rx.active && frames != [] && ix[0] != 0
              && Continues(rx, frames) && Completed(rx, frames) != q
  {
    if rx.active && frames != [] && ix[0] != 0 {
      forall i | 0 <= i < |frames| ensures frames[i].Kind() == 2 {
        assert ix[0] <= ix[i];
        ConsecutiveCarries(q, ix[i]);
      }
      ConsumesExactly(rx, frames);
      if Continues(rx, frames) {
        assert Completed(rx, frames) in EcuConsume(rx, frames).1;
      }
    } else {
      EcuNoWrongPayload(rx, frames, ix, q);
    }
  }

  // ---- How it comes about --------------------------------------------------

  function InFlight(c: Channel): Channel
    requires c.read <= |c.log|
  {
    Channel(c.log[c.read..], 0)
  }

  /** The M7 has given up on one request and asks for another, over a fresh
      subscription; frames still on the bus arrive there. */
  ghost predicate Renewed(n: Net, job: Job, n': Net) {
    && n.m7.Awaiting? && n.m7.r.Refused? && job.Valid()
    && n.up.read <= |n.up.log| && n.down.read <= |n.down.log|
    && n' == Net(Requesting(Begin(job.request)), n.ecu, n.rx, InFlight(n.up), InFlight(n.down), [])
  }

  /** Steps and faults of the exchange of `job`, from any state. */
  ghost predicate Continued(job: Job, run: seq<Net>) {
    && run != [] && job.Valid()
    && forall i :: 0 <= i < |run| - 1 ==> Step(job, run[i], run[i + 1]) || Fault(run[i], run[i + 1])
  }

  const ONES: Payload := [1, 1, 1, 1, 1, 1, 1, 1]
  const TWOS: Payload := [2, 2, 2, 2, 2, 2, 2, 2]
  const SPLICE: Payload := [1, 1, 1, 1, 1, 1, 2, 2]

  function JobOf(request: Payload): Job { Job(request, q => [0], MAX_PAYLOAD) }

  const IDLE := EcuRx(false, 0, 0, 0, seq(MAX_PAYLOAD, _ => 0))

  lemma FramesOfExample()
    ensures Octets(ONES, 0) == [16, 8, 1, 1, 1, 1, 1, 1] && Octets(TWOS, 1) == [33, 2, 2, 0, 0, 0, 0, 0]
    ensures FrameCount(ONES) == FrameCount(TWOS) == 2
  {
    assert EndOf(TWOS, 1) == 8 && TWOS[6..8] == [2, 2];
    assert Pad7([2, 2]) == [2, 2, 0, 0, 0, 0, 0];
  }

  lemma Storing()
    ensures
      var rx := EcuRx(true, 8, 6, 1, Write(IDLE.payload, 0, [1, 1, 1, 1, 1, 1]));
      var f := CanFrame(ECU_REQUEST_ID, false, false, 8, Octets(ONES, 0));
      var g := CanFrame(ECU_REQUEST_ID, false, false, 8, Octets(TWOS, 1));
      && EcuOnFrame(IDLE, f) == (rx, Flow(0))
      && rx.Valid() && EcuOnFrame(rx, g).1 == Deliver(SPLICE)
  {
    var rx := EcuRx(true, 8, 6, 1, Write(IDLE.payload, 0, [1, 1, 1, 1, 1, 1]));
    var f := CanFrame(ECU_REQUEST_ID, false, false, 8, Octets(ONES, 0));
    var g := CanFrame(ECU_REQUEST_ID, false, false, 8, Octets(TWOS, 1));
    FramesOfExample();
    assert f.data[2..8] == [1, 1, 1, 1, 1, 1] && g.data[1..3] == [2, 2];
    var rx' := EcuStore(rx, g);
    assert rx'.payload[..8] == rx'.payload[..6] + rx'.payload[6..8];
  }

  /** The first exchange: the ECU grants the request, but its clear-to-send is so
      late that the M7 gives up. */
  lemma GivenUp() returns (run: seq<Net>)
    ensures LossyRun(JobOf(ONES), run)
    ensures
      var last := run[|run| - 1];
      && last.m7 == Awaiting(Refused(-ETIMEDOUT)) && last.ecu == Listening
      && last.rx == EcuRx(true, 8, 6, 1, Write(IDLE.payload, 0, [1, 1, 1, 1, 1, 1]))
      && last.up.log == [CanFrame(ECU_REQUEST_ID, false, false, 8, Octets(ONES, 0))] && last.up.read == 1
      && last.down == Channel([FlowFrame(0, ECU_LINK)], 0)
  {
    var job := JobOf(ONES);
    Storing();
    var s0 := Net(Requesting(Begin(ONES)), Listening, IDLE, Channel([], 0), Channel([], 0), []);
    var s1 := M7Step(job, s0);
    var s2 := EcuStep(job, s1);
    var s3 := s2.(m7 := Awaiting(Refused(-ETIMEDOUT)));
    assert Step(job, s0, s1) && Step(job, s1, s2) && Fault(s2, s3);
    run := [s0, s1, s2, s3];
  }

  /** The second exchange: its first frame is lost, the late clear-to-send lets
      the M7 go on, and the ECU completes the first request with its data. */
  lemma CarriedOn(n: Net) returns (run: seq<Net>)
    requires n == Net(Requesting(Begin(TWOS)), Listening,
                      EcuRx(true, 8, 6, 1, Write(IDLE.payload, 0, [1, 1, 1, 1, 1, 1])),
                      Channel([], 0), Channel([FlowFrame(0, ECU_LINK)], 0), [])
    ensures Continued(JobOf(TWOS), run) && run[0] == n && run[|run| - 1].delivered == [SPLICE]
  {
    var n1, n2, n3 := LetOn(n);
    var n4, n5 := Spliced(n3);
    run := [n, n1, n2, n3, n4, n5];
  }

  lemma LetOn(n: Net) returns (n1: Net, n2: Net, n3: Net)
    requires n.m7 == Requesting(Begin(TWOS)) && n.ecu == Listening && n.rx.Valid() && n.delivered == []
    requires n.up == Channel([], 0) && n.down == Channel([FlowFrame(0, ECU_LINK)], 0)
    ensures Step(JobOf(TWOS), n, n1) && Fault(n1, n2) && Step(JobOf(TWOS), n2, n3)
    ensures n3 == n.(m7 := Requesting(Sender(TWOS, 1, Emit, 0, 0, 0)), up := n3.up, down := n3.down)
    ensures n3.up == Channel([FrameOf(Begin(TWOS), M7_LINK)], 1)
  {
    var job := JobOf(TWOS);
    FramesOfExample();
    n1 := M7Step(job, n);
    n2 := n1.(up := n1.up.Skip());
    n3 := M7Step(job, n2);
  }

  lemma {:induction false} Spliced(n3: Net) returns (n4: Net, n5: Net)
    requires n3.m7 == Requesting(Sender(TWOS, 1, Emit, 0, 0, 0)) && n3.ecu == Listening && n3.delivered == []
    requires n3.rx == EcuRx(true, 8, 6, 1, Write(IDLE.payload, 0, [1, 1, 1, 1, 1, 1]))
    requires |n3.up.log| == 1 == n3.up.read
    ensures Step(JobOf(TWOS), n3, n4) && Step(JobOf(TWOS), n4, n5) && n5.delivered == [SPLICE]
  {
    var job := JobOf(TWOS);
    Storing();
    FramesOfExample();
    n4 := M7Step(job, n3);
    assert n4.up.log[1] == CanFrame(ECU_REQUEST_ID, false, false, 8, Octets(TWOS, 1)) && n4.up.read == 1;
    n5 := EcuStep(job, n4);
  }

  /** Losses alone never make the ECU hand over a foreign request, but a
      clear-to-send that outlives its exchange does: the M7 gives up on one
      request, the first frame of the next is lost, and the ECU processes a
      request that nobody sent. */
  lemma LateClearToSendSplices() returns (first: seq<Net>, second: seq<Net>)
    ensures LossyRun(JobOf(ONES), first) && Continued(JobOf(TWOS), second)
    ensures Renewed(first[|first| - 1], JobOf(TWOS), second[0])
    ensures second[|second| - 1].delivered == [SPLICE] && SPLICE != ONES && SPLICE != TWOS
  {
    first := GivenUp();
    var last := first[|first| - 1];
    var n := Net(Requesting(Begin(TWOS)), last.ecu, last.rx, InFlight(last.up), InFlight(last.down), []);
    assert InFlight(last.up) == Channel([], 0);
    assert InFlight(last.down) == Channel([FlowFrame(0, ECU_LINK)], 0);
    second := CarriedOn(n);
  }
}
