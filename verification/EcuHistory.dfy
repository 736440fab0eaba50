/** The ECU after any history, read off the events alone: state, session, fault
    memory and sequence number. */
module EcuHistory {
  import opened Bytes
  import opened EcuModel

  /** The state last set over the serial line, or by a write in the extended
      session. */
  function LatestState(h: History): nat {
    match h
    case Boot => 0
    case Then(before, SerialState(s)) => if s <= 2 then s else LatestState(before)
    case Then(before, Request(p)) =>
      if |p| == 4 && p[..3] == [0x2e, 0xf1, 0x00] && p[3] <= 2 && LatestSession(before) == 0x03 then p[3]
      else LatestState(before)
    case Then(before, _) => LatestState(before)
  }

  /** Trouble code `i` has failed since the memory was last cleared, or then. */
  predicate FailedSinceClear(h: History, i: nat) {
    match h
    case Boot => false
    case Then(before, e) => LatestState(h) == i + 1 || (FailedSinceClear(before, i) && !IsClear(e))
  }

  /** How often it began to fail since then; one that fails while the memory is
      cleared begins anew. */
  function Onsets(h: History, i: nat): nat {
    match h
    case Boot => 0
    case Then(before, e) =>
      if IsClear(e) then if LatestState(before) == i + 1 then 1 else 0
      else Onsets(before, i) + if LatestState(h) == i + 1 && LatestState(before) != i + 1 then 1 else 0
  }

  /** What the status frames have counted: one for each, and two more for a jump. */
  function Counted(h: History): nat {
    match h
    case Boot => 0
    case Then(before, StatusFrame(jump)) => Counted(before) + if jump then 3 else 1
    case Then(before, _) => Counted(before)
  }

  /** Trouble code `i`, of which 0 is P0217 and 1 is P0562. */
  function DtcIs(i: nat, state: nat, failed: bool, onsets: nat): Dtc {
    Dtc(if i == 0 then 0x021700 else 0x056200,
        if state == i + 1 then 0x0f else if failed then 0x08 else 0x00,
        onsets % 0x1_0000)
  }

  /** A change of state, on one trouble code. */
  lemma StateChange(m: Ecu, state: nat, i: nat, failed: bool, onsets: nat)
    requires Valid(m) && state <= 2 && i < 2 && m.dtcs[i] == DtcIs(i, m.state, failed, onsets)
    requires m.state == i + 1 ==> failed
    ensures
      var m' := Apply(m, state);
      && m'.dtcs[i] == DtcIs(i, state, failed || state == i + 1,
                             onsets + if state == i + 1 && m.state != i + 1 then 1 else 0)
      && m'.state == state && m'.session == m.session && m'.sequence == m.sequence
  {
    assert (onsets % 0x1_0000 + 1) % 0x1_0000 == (onsets + 1) % 0x1_0000;
  }

  lemma ClearChange(m: Ecu, i: nat)
    requires Valid(m) && i < 2
    ensures
      var m' := Clear(m);
      && m'.dtcs[i] == DtcIs(i, m.state, m.state == i + 1, if m.state == i + 1 then 1 else 0)
      && m'.state == m.state && m'.session == m.session && m'.sequence == m.sequence
  {
  }

  /** What a request does to the fault memory. */
  lemma RequestDoes(m: Ecu, p: Payload)
    requires Valid(m) && Possible(Request(p))
    ensures
      var m' := Step(m, Request(p));
      if IsClear(Request(p)) then m' == Clear(m)
      else if |p| == 4 && p[..3] == [0x2e, 0xf1, 0x00] && p[3] <= 2 && m.session == 0x03 then m' == Apply(m, p[3])
      else m'.dtcs == m.dtcs && m'.state == m.state && m'.sequence == m.sequence
  {
  }

  /** One event more, whatever it is. */
  lemma {:induction false} EventDoes(h: History, m: Ecu, e: Event, i: nat)
    requires Valid(m) && Possible(e) && i < 2
    requires m.state == LatestState(h) && m.session == LatestSession(h)
    requires m.dtcs[i] == DtcIs(i, m.state, FailedSinceClear(h, i), Onsets(h, i))
    requires m.state == i + 1 ==> FailedSinceClear(h, i)
    ensures
      var m', h' := Step(m, e), Then(h, e);
      && m'.state == LatestState(h')
      && m'.dtcs[i] == DtcIs(i, m'.state, FailedSinceClear(h', i), Onsets(h', i))
  {
    var failed, onsets := FailedSinceClear(h, i), Onsets(h, i);
    hide Apply, Clear, Process, DtcIs, DtcOk;
    match e
    case Request(p) =>
      RequestDoes(m, p);
      if IsClear(e) {
        ClearChange(m, i);
      } else if |p| == 4 && p[..3] == [0x2e, 0xf1, 0x00] && p[3] <= 2 && m.session == 0x03 {
        StateChange(m, p[3], i, failed, onsets);
      }
    case SerialState(s) => StateChange(m, s, i, failed, onsets);
    case SerialClear => ClearChange(m, i);
    case StatusFrame(_) =>
  }

  lemma {:induction false} FaultsAreTold(h: History, i: nat)
    requires i < 2
    ensures
      var m := After(h);
      && m.state == LatestState(h)
      && m.dtcs[i] == DtcIs(i, m.state, FailedSinceClear(h, i), Onsets(h, i))
      && (m.state == i + 1 ==> FailedSinceClear(h, i))
  {
    hide Step, Process, IsClear;
    match h
    case Boot =>
    case Then(before, e) =>
      FaultsAreTold(before, i);
      FaultMemory(before);
      SessionIsLatest(before);
      if Possible(e) {
        EventDoes(before, After(before), e, i);
      } else {
        ImpossibleIsNothing(before, e);
      }
  }

  lemma ImpossibleIsNothing(h: History, e: Event)
    requires !Possible(e)
    ensures LatestState(Then(h, e)) == LatestState(h) && !IsClear(e) && Counted(Then(h, e)) == Counted(h)
  {
  }

  lemma StepCounts(m: Ecu, e: Event)
    requires |m.dtcs| == 2 && Possible(e)
    ensures
      Step(m, e).sequence ==
      if e.StatusFrame? then (m.sequence + if e.jump then 3 else 1) % 0x1_0000_0000 else m.sequence
  {
  }

  lemma {:induction false} SequenceIsCounted(h: History)
    ensures After(h).sequence == Counted(h) % 0x1_0000_0000
  {
    hide Step, Process;
    match h
    case Boot =>
    case Then(before, e) =>
      SequenceIsCounted(before);
      if Possible(e) {
        StepCounts(After(before), e);
        var n := Counted(before);
        assert (n % 0x1_0000_0000 + 3) % 0x1_0000_0000 == (n + 3) % 0x1_0000_0000;
        assert (n % 0x1_0000_0000 + 1) % 0x1_0000_0000 == (n + 1) % 0x1_0000_0000;
      }
  }

  /** For every history, from its events alone: the state is the one last set, the
      session the one last accepted; coolant and voltage are those of the state;
      a trouble code has status 0x0f while it fails, 0x08 if it has failed since
      the last clear, and 0x00 otherwise, and counts how often it began to fail;
      the sequence number counts the status frames. */
  lemma {:induction false} HistoryTells(h: History)
    ensures
      var m, state := After(h), LatestState(h);
      && m == Ecu(state, LatestSession(h), if state == 1 then 110 else 60, if state == 2 then 10500 else 12600,
                  [DtcIs(0, state, FailedSinceClear(h, 0), Onsets(h, 0)),
                   DtcIs(1, state, FailedSinceClear(h, 1), Onsets(h, 1))],
                  Counted(h) % 0x1_0000_0000)
  {
    hide DtcIs;
    FaultMemory(h);
    SessionIsLatest(h);
    FaultsAreTold(h, 0);
    FaultsAreTold(h, 1);
    SequenceIsCounted(h);
  }
}
