/** The simulated ECU: fault memory, session and the UDS and OBD-II services, as
    a function of the request. */
module EcuModel {
  import opened Bytes

  const NORMAL := 0
  const OVER_TEMPERATURE := 1
  const LOW_VOLTAGE := 2

  const P0217 := 0x021700
  const P0562 := 0x056200
  const DEFAULT_SESSION := 0x01
  const EXTENDED_SESSION := 0x03

  /** "OK8MP2026CAN00001" */
  const VIN: seq<byte> := [79, 75, 56, 77, 80, 50, 48, 50, 54, 67, 65, 78, 48, 48, 48, 48, 49]

  datatype Dtc = Dtc(code: nat, status: byte, occurrences: nat)
  {
    predicate Active() { status % 2 == 1 }
    predicate Confirmed() { status / 8 % 2 == 1 }
    predicate Stored() { status != 0 }
  }

  datatype Ecu = Ecu(state: nat, session: byte, coolant: byte, battery: nat, dtcs: seq<Dtc>, sequence: nat)

  // ---- Fault memory --------------------------------------------------------

  /** Failing sets the four low status bits; passing clears all of them but the
      confirmed bit. */
  function SetActive(d: Dtc, active: bool): Dtc {
    if active then
      Dtc(d.code, d.status / 16 * 16 + 15, if d.Active() then d.occurrences else (d.occurrences + 1) % 0x1_0000)
    else d.(status := d.status / 8 * 8)
  }

  function Apply(m: Ecu, state: nat): Ecu
    requires |m.dtcs| == 2
  {
    m.(state := state,
       coolant := if state == OVER_TEMPERATURE then 110 else 60,
       battery := if state == LOW_VOLTAGE then 10500 else 12600,
       dtcs := [SetActive(m.dtcs[0], state == OVER_TEMPERATURE), SetActive(m.dtcs[1], state == LOW_VOLTAGE)])
  }

  function Clear(m: Ecu): Ecu
    requires |m.dtcs| == 2
  {
    Apply(m.(dtcs := [Dtc(m.dtcs[0].code, 0, 0), Dtc(m.dtcs[1].code, 0, 0)]), m.state)
  }

  function CountActive(ds: seq<Dtc>): (n: nat)
    ensures n <= |ds|
  {
    if ds == [] then 0 else CountActive(ds[..|ds| - 1]) + (if ds[|ds| - 1].Active() then 1 else 0)
  }

  function CountStored(ds: seq<Dtc>): (n: nat)
    ensures n <= |ds|
  {
    if ds == [] then 0 else CountStored(ds[..|ds| - 1]) + (if ds[|ds| - 1].Stored() then 1 else 0)
  }

  // ---- Responses -----------------------------------------------------------

  function High(n: nat): byte { n / 256 % 256 }
  function Low(n: nat): byte { n % 256 }

  function Negative(service: byte, error: byte): Payload { [0x7f, service, error] }

  /** The exclusive or of the eight status octets. */
  function Checksum(s: seq<byte>): byte
    requires |s| == 8
  {
    Xor(Xor(Xor(Xor(Xor(Xor(Xor(s[0], s[1]), s[2]), s[3]), s[4]), s[5]), s[6]), s[7])
  }

  function StatusFields(m: Ecu): (r: seq<byte>)
    requires |m.dtcs| == 2
    ensures |r| == 8
  {
    [m.state % 256, m.coolant, High(m.battery), Low(m.battery), CountActive(m.dtcs), CountStored(m.dtcs),
     High(m.sequence), Low(m.sequence)]
  }

  /** Code and status of every trouble code that shares a status bit with `mask`. */
  function DtcReport(ds: seq<Dtc>, mask: byte): (r: seq<byte>)
    ensures |r| <= 4 * |ds|
  {
    if ds == [] then []
    else
      var d := ds[|ds| - 1];
      DtcReport(ds[..|ds| - 1], mask) +
      (if And(d.status, mask) == 0 then [] else [d.code / 0x1_0000 % 256, High(d.code), Low(d.code), d.status])
  }

  /** The SAE codes of every stored trouble code. */
  function ObdReport(ds: seq<Dtc>): (r: seq<byte>)
    ensures |r| <= 2 * |ds|
  {
    if ds == [] then []
    else
      var d := ds[|ds| - 1];
      ObdReport(ds[..|ds| - 1]) + (if d.status == 0 then [] else [d.code / 0x1_0000 % 256, High(d.code)])
  }

  function CurrentData(m: Ecu, pid: byte): Payload
    requires |m.dtcs| == 2
  {
    var active: byte := CountActive(m.dtcs);
    if pid == 0x00 then [0x41, pid, 0x88, 0, 0, 1]
    else if pid == 0x20 then [0x41, pid, 0, 0, 0, 1]
    else if pid == 0x40 then [0x41, pid, 0x40, 0, 0, 0]
    else if pid == 0x01 then [0x41, pid, if active != 0 then 0x80 + active else 0, 0, 0, 0]
    else if pid == 0x05 then [0x41, pid, (m.coolant + 40) % 256]
    else if pid == 0x42 then [0x41, pid, High(m.battery), Low(m.battery)]
    else Negative(0x01, 0x31)
  }

  function ReadData(m: Ecu, request: Payload): Payload
    requires |m.dtcs| == 2 && request != []
  {
    if |request| != 3 then Negative(0x22, 0x13)
    else if request == [0x22, 0xf1, 0x00] then
      [0x62, 0xf1, 0x00] + StatusFields(m) + [Checksum(StatusFields(m))]
    else if request == [0x22, 0xf1, 0x90] then [0x62, 0xf1, 0x90] + VIN
    else Negative(0x22, 0x31)
  }

  function Process(m: Ecu, request: Payload): (r: (Ecu, Payload))
    requires |m.dtcs| == 2 && 1 <= |request| <= MAX_PAYLOAD
    ensures |r.0.dtcs| == 2 && 1 <= |r.1| <= MAX_PAYLOAD
  {
    match request[0]
    case 0x10 =>
      if |request| != 2 || (request[1] != DEFAULT_SESSION && request[1] != EXTENDED_SESSION) then
        (m, Negative(0x10, 0x12))
      else (m.(session := request[1]), [0x50, request[1], 0x00, 0x32, 0x01, 0xf4])
    case 0x22 => (m, ReadData(m, request))
    case 0x2e =>
      if |request| != 4 || request[1] != 0xf1 || request[2] != 0x00 || request[3] > 2 then (m, Negative(0x2e, 0x31))
      else if m.session != EXTENDED_SESSION then (m, Negative(0x2e, 0x22))
      else (Apply(m, request[3]), [0x6e, 0xf1, 0x00, request[3]])
    case 0x19 =>
      if |request| != 3 || request[1] != 0x02 then (m, Negative(0x19, 0x12))
      else (m, [0x59, 0x02, 0xff] + DtcReport(m.dtcs, request[2]))
    case 0x14 =>
      if request != [0x14, 0xff, 0xff, 0xff] then (m, Negative(0x14, 0x31))
      else (Clear(m), [0x54])
    case 0x31 =>
      if |request| < 4 || request[1] != 0x01 || request[2] != 0xff || request[3] != 0x00 then (m, Negative(0x31, 0x31))
      else (m, [0x71] + request[1..])
    case 0x3e =>
      if |request| != 2 || request[1] % 128 != 0 then (m, Negative(0x3e, 0x12))
      else (m, [0x7e, 0])
    case 0x01 => (m, if |request| != 2 then Negative(0x01, 0x13) else CurrentData(m, request[1]))
    case 0x03 => (m, if |request| != 1 then Negative(0x03, 0x13) else [0x43] + ObdReport(m.dtcs))
    case 0x04 => if |request| != 1 then (m, Negative(0x04, 0x13)) else (Clear(m), [0x44])
    case 0x09 =>
      (m, if |request| != 2 || request[1] != 0x02 then Negative(0x09, 0x31) else [0x49, 0x02, 0x01] + VIN)
    case _ => (m, Negative(request[0], 0x11))
  }

  /** A response is either positive, starting with the service plus 0x40, or
      negative, and then the request has changed nothing. */
  lemma PositiveOrNegative(m: Ecu, request: Payload)
    requires |m.dtcs| == 2 && 1 <= |request| <= MAX_PAYLOAD
    ensures
      var (m', answer) := Process(m, request);
      var service: nat := request[0];
      || answer[0] == service + 0x40
      || (m' == m && |answer| == 3 && answer[0] == 0x7f && answer[1] == service)
  {
  }

  // ---- Histories -----------------------------------------------------------

  datatype Event =
    | Request(payload: Payload)
    | SerialState(state: nat)
    | SerialClear
    | StatusFrame(jump: bool)

  predicate Possible(e: Event) {
    (e.Request? ==> 1 <= |e.payload| <= MAX_PAYLOAD) && (e.SerialState? ==> e.state <= 2)
  }

  function Step(m: Ecu, e: Event): (m': Ecu)
    requires |m.dtcs| == 2 && Possible(e)
    ensures |m'.dtcs| == 2
  {
    match e
    case Request(p) => Process(m, p).0
    case SerialState(s) => Apply(m, s)
    case SerialClear => Clear(m)
    case StatusFrame(jump) => m.(sequence := (m.sequence + (if jump then 3 else 1)) % 0x1_0000_0000)
  }

  const BOOTED := Apply(Ecu(NORMAL, DEFAULT_SESSION, 60, 12600, [Dtc(P0217, 0, 0), Dtc(P0562, 0, 0)], 0), NORMAL)

  datatype History = Boot | Then(before: History, event: Event)

  function After(h: History): (m: Ecu)
    ensures |m.dtcs| == 2
  {
    match h
    case Boot => BOOTED
    case Then(before, e) => if Possible(e) then Step(After(before), e) else After(before)
  }

  /** A trouble code is clean, confirmed in the past, or failing now. */
  predicate DtcOk(d: Dtc, failing: bool) {
    d.status in {0x00, 0x08, 0x0f} && (d.status == 0x0f <==> failing) && d.occurrences < 0x1_0000
  }

  predicate Valid(m: Ecu) {
    && m.state <= 2 && (m.session == DEFAULT_SESSION || m.session == EXTENDED_SESSION)
    && |m.dtcs| == 2 && m.dtcs[0].code == P0217 && m.dtcs[1].code == P0562
    && DtcOk(m.dtcs[0], m.state == OVER_TEMPERATURE) && DtcOk(m.dtcs[1], m.state == LOW_VOLTAGE)
    && m.coolant == (if m.state == OVER_TEMPERATURE then 110 else 60)
    && m.battery == (if m.state == LOW_VOLTAGE then 10500 else 12600)
    && m.sequence < 0x1_0000_0000
  }

  lemma ApplyValid(m: Ecu, state: nat)
    requires Valid(m) && state <= 2
    ensures Valid(Apply(m, state)) && Valid(Clear(m))
  {
  }

  lemma StepValid(m: Ecu, e: Event)
    requires Valid(m) && Possible(e)
    ensures Valid(Step(m, e))
  {
    ApplyValid(m, m.state);
    match e
    case Request(p) => if |p| == 4 && p[3] <= 2 { ApplyValid(m, p[3]); }
    case SerialState(s) => ApplyValid(m, s);
    case _ =>
  }

  /** Over every history of requests, serial commands and status frames each
      trouble code status is 0x00, 0x08 or 0x0f, and it fails exactly while the
      ECU is in its state. */
  lemma {:induction false} FaultMemory(h: History)
    ensures Valid(After(h))
  {
    match h
    case Boot =>
    case Then(before, e) =>
      FaultMemory(before);
      if Possible(e) {
        StepValid(After(before), e);
      }
  }

  predicate IsClear(e: Event) {
    e == SerialClear || e == Request([0x14, 0xff, 0xff, 0xff]) || e == Request([0x04])
  }

  /** Confirmed history disappears only through a clear, and right after a clear
      only codes that still fail are stored. */
  lemma OnlyClearForgets(m: Ecu, e: Event, i: nat)
    requires Valid(m) && Possible(e) && i < 2
    ensures m.dtcs[i].Confirmed() && !Step(m, e).dtcs[i].Confirmed() ==> IsClear(e)
    ensures IsClear(e) ==> (Step(m, e).dtcs[i].Stored() <==> Step(m, e).dtcs[i].Active()) && Step(m, e).state == m.state
  {
  }

  /** The session of the last accepted session request. */
  function LatestSession(h: History): byte {
    match h
    case Boot => 0x01
    case Then(before, e) =>
      if e == Request([0x10, 0x01]) then 0x01
      else if e == Request([0x10, 0x03]) then 0x03
      else LatestSession(before)
  }

  lemma {:induction false} SessionIsLatest(h: History)
    ensures After(h).session == LatestSession(h)
  {
    match h
    case Boot =>
    case Then(before, e) =>
      SessionIsLatest(before);
      if e.Request? && |e.payload| == 2 && e.payload[0] == 0x10 {
        assert e.payload == [0x10, e.payload[1]];
      }
  }

  /** A remote request changes the ECU state only by writing it, and only while
      the latest accepted session request was for the extended session. */
  lemma RemoteChangeNeedsSession(h: History, p: Payload)
    requires 1 <= |p| <= MAX_PAYLOAD
    requires After(Then(h, Request(p))).state != After(h).state
    ensures LatestSession(h) == 0x03
    ensures p == [0x2e, 0xf1, 0x00, After(Then(h, Request(p))).state]
  {
    SessionIsLatest(h);
  }
}
