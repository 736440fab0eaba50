/** The M7's UDS and OBD-II client, over a transport that delivers a request
    and brings back its response. */
module DiagClient {
  import opened Bytes
  import opened EcuModel
  import opened EcuServer
  import IsotpExchange
  import IsotpSpec
  import opened Errno

  // ---- The transport -------------------------------------------------------

  /** The server's answer to every request it can be sent. */
  function Answer(m: Ecu, q: Payload): Payload
    requires |m.dtcs| == 2
  {
    if 1 <= |q| <= MAX_PAYLOAD then Process(m, q).1 else [0]
  }

  function JobFor(m: Ecu, request: Payload, capacity: nat): (job: IsotpExchange.Job)
    requires |m.dtcs| == 2 && 1 <= |request| <= MAX_PAYLOAD
    ensures job.Valid() && job.Response() == Process(m, request).1
  {
    IsotpExchange.Job(request, q => Answer(m, q), capacity)
  }

  /** Every loss-free run of the two transport stations that can go no further
      has processed the request once and left its answer with the client; this
      is what `Exchange` relies on. */
  lemma TransportIsFaithful(m: Ecu, request: Payload, capacity: nat, run: seq<IsotpExchange.Net>)
    requires |m.dtcs| == 2 && 1 <= |request| <= MAX_PAYLOAD
    requires IsotpExchange.ReliableRun(JobFor(m, request, capacity), run)
    requires IsotpExchange.Final(run[|run| - 1])
    ensures
      var last := run[|run| - 1];
      var answer := Process(m, request).1;
      && last.delivered == [request]
      && last.m7 == IsotpExchange.Awaiting(if |answer| <= capacity then IsotpSpec.Received(answer)
                                           else IsotpSpec.Refused(-EMSGSIZE))
  {
    var job := JobFor(m, request, capacity);
    IsotpExchange.ReliableExchange(job, run);
    assert IsotpExchange.Done(job, run[|run| - 1]);
  }

  // ---- One exchange after another ------------------------------------------

  datatype Asked = Asked(request: Payload, capacity: nat)

  ghost predicate AllAskable(asked: seq<Asked>) {
    forall i :: 0 <= i < |asked| ==> 1 <= |asked[i].request| <= MAX_PAYLOAD
  }

  /** The server after a sequence of delivered requests; it ignores what the
      transport cannot deliver. */
  function Served(m: Ecu, delivered: seq<Payload>): (r: Ecu)
    requires |m.dtcs| == 2
    ensures |r.dtcs| == 2
  {
    if delivered == [] then m
    else
      var before, q := Served(m, delivered[..|delivered| - 1]), delivered[|delivered| - 1];
      if 1 <= |q| <= MAX_PAYLOAD then Process(before, q).0 else before
  }

  /** What the ECU's transport handed over, run after run. */
  ghost function Delivered(runs: seq<seq<IsotpExchange.Net>>): seq<Payload>
    requires forall i :: 0 <= i < |runs| ==> runs[i] != []
  {
    if runs == [] then []
    else var run := runs[|runs| - 1]; Delivered(runs[..|runs| - 1]) + run[|run| - 1].delivered
  }

  /** Finished loss-free runs, one for each request, each over the server that the
      requests delivered before it have left. */
  ghost predicate Session(m: Ecu, asked: seq<Asked>, runs: seq<seq<IsotpExchange.Net>>)
    requires |m.dtcs| == 2
  {
    && AllAskable(asked) && |runs| == |asked|
    && (forall i :: 0 <= i < |runs| ==> runs[i] != [])
    && forall i :: 0 <= i < |runs| ==>
         && IsotpExchange.ReliableRun(JobFor(Served(m, Delivered(runs[..i])), asked[i].request, asked[i].capacity),
                                     runs[i])
         && IsotpExchange.Final(runs[i][|runs[i]| - 1])
  }

  function Requests(asked: seq<Asked>): seq<Payload> {
    if asked == [] then [] else Requests(asked[..|asked| - 1]) + [asked[|asked| - 1].request]
  }

  /** Over any number of exchanges the server goes through exactly the requests
      asked, in order and once each. */
  lemma {:induction false} SessionDelivers(m: Ecu, asked: seq<Asked>, runs: seq<seq<IsotpExchange.Net>>)
    requires |m.dtcs| == 2 && Session(m, asked, runs)
    ensures Delivered(runs) == Requests(asked)
  {
    if asked != [] {
      var k := |asked| - 1;
      SessionPrefix(m, asked, runs, k);
      SessionDelivers(m, asked[..k], runs[..k]);
      TransportIsFaithful(Served(m, Delivered(runs[..k])), asked[k].request, asked[k].capacity, runs[k]);
    }
  }

  lemma {:induction false} SessionPrefix(m: Ecu, asked: seq<Asked>, runs: seq<seq<IsotpExchange.Net>>, k: nat)
    requires |m.dtcs| == 2 && Session(m, asked, runs) && k <= |asked|
    ensures Session(m, asked[..k], runs[..k])
  {
    forall i | 0 <= i < k
      ensures IsotpExchange.ReliableRun(
                JobFor(Served(m, Delivered(runs[..k][..i])), asked[..k][i].request, asked[..k][i].capacity),
                runs[..k][i]) {
      assert runs[..k][..i] == runs[..i];
    }
  }

  /** And each leaves with the client the answer of the server as the requests
      before have left it: what a call of `Exchange` computes, call after call. */
  lemma {:induction false} SessionIsFaithful(m: Ecu, asked: seq<Asked>, runs: seq<seq<IsotpExchange.Net>>, i: nat)
    requires |m.dtcs| == 2 && Session(m, asked, runs) && i < |asked|
    ensures
      var last := runs[i][|runs[i]| - 1];
      var answer := Process(Served(m, Requests(asked[..i])), asked[i].request).1;
      && last.delivered == [asked[i].request]
      && last.m7 == IsotpExchange.Awaiting(if |answer| <= asked[i].capacity then IsotpSpec.Received(answer)
                                           else IsotpSpec.Refused(-EMSGSIZE))
  {
    SessionPrefix(m, asked, runs, i);
    SessionDelivers(m, asked[..i], runs[..i]);
    TransportIsFaithful(Served(m, Delivered(runs[..i])), asked[i].request, asked[i].capacity, runs[i]);
  }

  /** One request over the reliable transport. */
  method Exchange(server: Server, request: Payload, response: array<byte>, capacity: nat)
    returns (ret: int, length: nat)
    requires server.Wf() && capacity <= response.Length
    modifies server, server.dtcs, response
    ensures request == [] || |request| > MAX_PAYLOAD || capacity == 0 ==>
              ret == -EINVAL && server.View() == old(server.View()) && server.asked == old(server.asked)
    ensures 1 <= |request| <= MAX_PAYLOAD && capacity > 0 ==>
              var (m, answer) := Process(old(server.View()), request);
              && server.View() == m && server.asked == old(server.asked) + [request]
              && (ret == 0 <==> |answer| <= capacity) && (ret != 0 ==> ret == -EMSGSIZE)
              && (ret == 0 ==> length == |answer| && response[..length] == answer)
  {
    length := capacity;
    if |request| == 0 || |request| > MAX_PAYLOAD || capacity == 0 {
      return -EINVAL, length;
    }
    var answer := server.ProcessRequest(request);
    length := |answer|;
    if length > capacity {
      return -EMSGSIZE, length;
    }
    forall i | 0 <= i < length {
      response[i] := answer[i];
    }
    ret := 0;
  }

  /** The verdict on an answer that arrived. */
  function Verdict(answer: Payload, positive: byte, minimum: nat): int {
    if IsNegative(answer) then -EPROTO
    else if |answer| < minimum || |answer| == 0 || answer[0] != positive then -EPROTO
    else 0
  }

  predicate IsNegative(answer: Payload) { |answer| >= 3 && answer[0] == 0x7f }

  /** One request; a negative response is an error. */
  method Request(server: Server, request: Payload, response: array<byte>, capacity: nat) returns (ret: int, length: nat)
    requires server.Wf() && capacity <= response.Length
    modifies server, server.dtcs, response
    ensures request == [] || |request| > MAX_PAYLOAD || capacity == 0 ==>
              ret == -EINVAL && server.View() == old(server.View()) && server.asked == old(server.asked)
    ensures 1 <= |request| <= MAX_PAYLOAD && capacity > 0 ==>
              var (m, answer) := Process(old(server.View()), request);
              && server.View() == m && server.asked == old(server.asked) + [request]
              && ret == (if |answer| > capacity then -EMSGSIZE else if IsNegative(answer) then -EPROTO else 0)
              && (ret == 0 ==> length == |answer| && response[..length] == answer)
  {
    ret, length := Exchange(server, request, response, capacity);
    if ret < 0 {
      return;
    }
    ghost var answer := response[..length];
    assert length > 0 ==> answer[0] == response[0];
    if length >= 3 && response[0] == 0x7f {
      return -EPROTO, length;
    }
  }

  method Expect(server: Server, request: Payload, response: array<byte>, capacity: nat, positive: byte, minimum: nat)
    returns (ret: int, length: nat)
    requires server.Wf() && 0 < capacity <= response.Length && 1 <= |request| <= MAX_PAYLOAD
    modifies server, server.dtcs, response
    ensures
      var (m, answer) := Process(old(server.View()), request);
      && server.View() == m && server.asked == old(server.asked) + [request]
      && ret == (if |answer| > capacity then -EMSGSIZE else Verdict(answer, positive, minimum))
      && (ret == 0 ==> length == |answer| && response[..length] == answer)
  {
    ret, length := Request(server, request, response, capacity);
    if ret < 0 {
      return;
    }
    ghost var answer := response[..length];
    assert |answer| > 0 ==> answer[0] == response[0];
    if length < minimum || response[0] != positive {
      return -EPROTO, length;
    }
  }

  // ---- Sessions and state --------------------------------------------------

  method UdsSession(server: Server, session: byte) returns (ret: int)
    requires server.Wf()
    modifies server, server.dtcs
    ensures ret == 0 <==> session == DEFAULT_SESSION || session == EXTENDED_SESSION
    ensures server.View() == if ret == 0 then old(server.View()).(session := session) else old(server.View())
    ensures server.asked == old(server.asked) + [[0x10, session]]
  {
    var response := new byte[MAX_PAYLOAD];
    var length;
    ret, length := Expect(server, [0x10, session], response, MAX_PAYLOAD, 0x50, 2);
    if ret == 0 {
      assert response[1] == response[..length][1];
      ret := if response[1] == session then 0 else -EPROTO;
    }
  }

  /** From every state the write succeeds, because the extended session is
      requested first. */
  method UdsSetState(server: Server, state: int) returns (ret: int)
    requires server.Wf()
    modifies server, server.dtcs
    ensures ret == (if 0 <= state <= 2 then 0 else -EINVAL)
    ensures server.View() == if 0 <= state <= 2 then Apply(old(server.View()).(session := EXTENDED_SESSION), state)
                             else old(server.View())
    ensures server.asked ==
            old(server.asked) + if 0 <= state <= 2 then [[0x10, 0x03], [0x2e, 0xf1, 0x00, state]] else []
  {
    if state < 0 || state > 2 {
      return -EINVAL;
    }
    ret := UdsSession(server, EXTENDED_SESSION);
    if ret < 0 {
      return;
    }
    var request: Payload := [0x2e, 0xf1, 0x00, state];
    var response := new byte[MAX_PAYLOAD];
    var length;
    ret, length := Expect(server, request, response, MAX_PAYLOAD, 0x6e, 4);
    if ret == 0 {
      assert response[..4] == [0x6e, 0xf1, 0x00, state];
      ret := if length == 4 && response[1] == request[1] && response[2] == request[2] && response[3] == request[3]
             then 0 else -EPROTO;
    }
  }

  method UdsClearDtcs(server: Server) returns (ret: int)
    requires server.Wf()
    modifies server, server.dtcs
    ensures ret == 0 && server.View() == Clear(old(server.View()))
    ensures server.asked == old(server.asked) + [[0x14, 0xff, 0xff, 0xff]]
  {
    var response := new byte[MAX_PAYLOAD];
    var length;
    ret, length := Expect(server, [0x14, 0xff, 0xff, 0xff], response, MAX_PAYLOAD, 0x54, 1);
    ret := if ret < 0 then ret else if length == 1 then 0 else -EPROTO;
  }

  // ---- Vehicle status ------------------------------------------------------

  datatype VehicleStatus = VehicleStatus(state: nat, coolant: byte, battery: nat, active: byte, stored: byte,
                                         sequence: nat)
  {
    predicate InRange() { state <= 2 && battery < 0x1_0000 && sequence < 0x1_0000 }
  }

  function StatusOctets(s: VehicleStatus): Payload
    requires s.InRange()
  {
    [0x62, 0xf1, 0x00] + Fields(s) + [Checksum(Fields(s))]
  }

  function Fields(s: VehicleStatus): (r: seq<byte>)
    requires s.InRange()
    ensures |r| == 8
  {
    [s.state, s.coolant, High(s.battery), Low(s.battery), s.active, s.stored, High(s.sequence), Low(s.sequence)]
  }

  lemma WordOfHalves(n: nat)
    requires n < 0x1_0000
    ensures Word(High(n), Low(n)) == n
  {
  }

  lemma HalvesOfWord(high: byte, low: byte)
    ensures High(Word(high, low)) == high && Low(Word(high, low)) == low
  {
  }

  /** Twelve octets with the right header encode exactly the status in their
      fields, provided the checksum matches. */
  lemma StatusShape(octets: Payload, s: VehicleStatus)
    requires |octets| == 12 && s.InRange()
    ensures octets == StatusOctets(s) <==>
              octets[..3] == [0x62, 0xf1, 0x00] && octets[3..11] == Fields(s) && octets[11] == Checksum(Fields(s))
  {
    var c := Checksum(Fields(s));
    assert octets == octets[..3] + octets[3..11] + [octets[11]];
    assert ([0x62, 0xf1, 0x00] + Fields(s) + [c])[3..11] == Fields(s);
    assert ([0x62, 0xf1, 0x00] + Fields(s) + [c])[..3] == [0x62, 0xf1, 0x00];
  }

  /** The status in the fields of a response. */
  function Parsed(f: seq<byte>): VehicleStatus
    requires |f| == 8
  {
    VehicleStatus(f[0], f[1], Word(f[2], f[3]), f[4], f[5], Word(f[6], f[7]))
  }

  lemma ParsedInvertsFields(f: seq<byte>, s: VehicleStatus)
    requires |f| == 8
    ensures f[0] <= 2 ==> Parsed(f).InRange() && Fields(Parsed(f)) == f
    ensures s.InRange() ==> Parsed(Fields(s)) == s
  {
    HalvesOfWord(f[2], f[3]);
    HalvesOfWord(f[6], f[7]);
    if s.InRange() {
      WordOfHalves(s.battery);
      WordOfHalves(s.sequence);
    }
  }

  predicate Header(response: Payload) {
    |response| == 12 && response[..3] == [0x62, 0xf1, 0x00] && response[3] <= 2
  }

  /** Accepts exactly the encodings of a status in range, and tells a damaged
      checksum from any other mistake. */
  method DecodeStatus(response: array<byte>, length: nat) returns (ret: int, status: VehicleStatus)
    requires 12 <= length <= response.Length && response[0] == 0x62
    ensures ret == 0 <==> Header(response[..length]) && response[11] == Checksum(response[3..11])
    ensures ret == -EBADMSG <==> Header(response[..length]) && response[11] != Checksum(response[3..11])
    ensures ret == 0 ==> status == Parsed(response[3..11])
  {
    status := VehicleStatus(0, 0, 0, 0, 0, 0);
    assert response[..3] == [response[0], response[1], response[2]];
    if length != 12 || response[1] != 0xf1 || response[2] != 0x00 || response[3] > 2 {
      return -EPROTO, status;
    }
    assert response[..length][..3] == response[..3];
    var checksum := Checksum(response[3..11]);
    if checksum != response[11] {
      return -EBADMSG, status;
    }
    status := VehicleStatus(response[3], response[4], Word(response[5], response[6]), response[7], response[8],
                            Word(response[9], response[10]));
    ret := 0;
  }

  /** A response is accepted exactly when it encodes some status in range, and
      then that status is the one decoded. */
  lemma AcceptedIsEncoding(octets: Payload, s: VehicleStatus)
    requires |octets| == 12
    ensures s.InRange() && octets == StatusOctets(s) ==>
              Header(octets) && octets[11] == Checksum(octets[3..11]) && Parsed(octets[3..11]) == s
    ensures Header(octets) && octets[11] == Checksum(octets[3..11]) && s == Parsed(octets[3..11]) ==>
              s.InRange() && octets == StatusOctets(s)
  {
    ParsedInvertsFields(octets[3..11], s);
    if s.InRange() {
      StatusShape(octets, s);
      assert octets[3..11][0] == octets[3];
    }
  }

  /** What the ECU should report about itself. */
  function StatusOf(m: Ecu): VehicleStatus
    requires |m.dtcs| == 2
  {
    VehicleStatus(m.state, m.coolant, m.battery, CountActive(m.dtcs), CountStored(m.dtcs), m.sequence % 0x1_0000)
  }

  lemma LowWord(n: nat)
    ensures High(n % 0x1_0000) == High(n) && Low(n % 0x1_0000) == Low(n)
  {
    var q := n / 0x1_0000;
    assert n == n % 0x1_0000 + q * 256 * 256;
    assert n / 256 == n % 0x1_0000 / 256 + q * 256;
  }

  lemma StatusFieldsMatch(m: Ecu)
    requires EcuModel.Valid(m)
    ensures StatusOf(m).InRange() && StatusFields(m) == Fields(StatusOf(m))
  {
    LowWord(m.sequence);
    var s, f := StatusOf(m), StatusFields(m);
    assert f[0] == s.state && f[1] == s.coolant && f[4] == s.active && f[5] == s.stored;
  }

  lemma ServerReportsStatus(m: Ecu)
    requires EcuModel.Valid(m)
    ensures StatusOf(m).InRange()
    ensures Process(m, [0x22, 0xf1, 0x00]) == (m, StatusOctets(StatusOf(m)))
    ensures Verdict(StatusOctets(StatusOf(m)), 0x62, 12) == 0
  {
    StatusFieldsMatch(m);
    var octets := StatusOctets(StatusOf(m));
    assert |octets| == 12 && octets[0] == 0x62;
    assert ReadData(m, [0x22, 0xf1, 0x00]) == octets;
  }

  method UdsReadStatus(server: Server) returns (ret: int, status: VehicleStatus)
    requires server.Wf() && EcuModel.Valid(server.View())
    modifies server, server.dtcs
    ensures server.View() == old(server.View())
    ensures ret == 0 && status == StatusOf(server.View())
    ensures server.asked == old(server.asked) + [[0x22, 0xf1, 0x00]]
  {
    var response := new byte[MAX_PAYLOAD];
    var length;
    ServerReportsStatus(server.View());
    ret, length := Expect(server, [0x22, 0xf1, 0x00], response, MAX_PAYLOAD, 0x62, 12);
    ghost var octets := response[..length];
    AcceptedIsEncoding(octets, StatusOf(server.View()));
    assert octets[3..11] == response[3..11] && octets[0] == response[0];
    ret, status := DecodeStatus(response, length);
  }

  /** Setting a state and reading it back, in terms of the ECU before: the state,
      its coolant and voltage, one active fault if any, and every fault ever
      confirmed still stored. */
  lemma ReadBack(m: Ecu, state: nat)
    requires EcuModel.Valid(m) && state <= 2
    ensures
      var s := StatusOf(Apply(m.(session := EXTENDED_SESSION), state));
      && s.state == state
      && s.coolant == (if state == OVER_TEMPERATURE then 110 else 60)
      && s.battery == (if state == LOW_VOLTAGE then 10500 else 12600)
      && s.active == (if state == NORMAL then 0 else 1)
      && s.stored == (if m.dtcs[0].Stored() || state == OVER_TEMPERATURE then 1 else 0)
                   + (if m.dtcs[1].Stored() || state == LOW_VOLTAGE then 1 else 0)
  {
    var ds := Apply(m.(session := EXTENDED_SESSION), state).dtcs;
    assert ds[..1] == [ds[0]] && ds[..1][..0] == [];
    assert CountActive(ds) == CountActive([ds[0]]) + (if ds[1].Active() then 1 else 0);
    assert CountStored(ds) == CountStored([ds[0]]) + (if ds[1].Stored() then 1 else 0);
  }

  // ---- Trouble codes -------------------------------------------------------

  datatype DtcRecord = DtcRecord(code: nat, status: byte)

  /** The stored trouble codes, in the ECU's order. */
  function StoredCodes(ds: seq<Dtc>): (r: seq<DtcRecord>)
    ensures |r| <= |ds|
  {
    if ds == [] then []
    else
      var d := ds[|ds| - 1];
      StoredCodes(ds[..|ds| - 1]) + (if d.Stored() then [DtcRecord(d.code, d.status)] else [])
  }

  function UdsOctets(r: DtcRecord): seq<byte> {
    [r.code / 0x1_0000 % 256, High(r.code), Low(r.code), r.status]
  }

  function ObdOctets(r: DtcRecord): seq<byte> {
    [r.code / 0x1_0000 % 256, High(r.code)]
  }

  /** Both reports list exactly the stored codes. */
  lemma {:induction false} ReportsListStored(ds: seq<Dtc>)
    ensures |DtcReport(ds, 255)| == 4 * |StoredCodes(ds)| && |ObdReport(ds)| == 2 * |StoredCodes(ds)|
    ensures forall i :: 0 <= i < |StoredCodes(ds)| ==>
              && DtcReport(ds, 255)[4 * i..4 * i + 4] == UdsOctets(StoredCodes(ds)[i])
              && ObdReport(ds)[2 * i..2 * i + 2] == ObdOctets(StoredCodes(ds)[i])
  {
    if ds != [] {
      var front, d := ds[..|ds| - 1], ds[|ds| - 1];
      ReportsListStored(front);
      AndAll(d.status);
    }
  }

  /** Codes fit in three octets. */
  ghost predicate CodesOk(rs: seq<DtcRecord>) {
    forall i :: 0 <= i < |rs| ==> rs[i].code < 0x100_0000
  }

  lemma UpperOctet(code: nat)
    requires code < 0x100_0000
    ensures code / 0x1_0000 % 256 == code / 256 / 256
  {
    assert code / 0x1_0000 == code / 256 / 256;
    assert code / 256 / 256 < 256;
  }

  lemma RecordOfOctets(r: DtcRecord)
    requires r.code < 0x100_0000
    ensures Word(ObdOctets(r)[0], ObdOctets(r)[1]) == r.code / 256
    ensures Word(Word(UdsOctets(r)[0], UdsOctets(r)[1]), UdsOctets(r)[2]) == r.code && UdsOctets(r)[3] == r.status
  {
    var upper := r.code / 256;
    UpperOctet(r.code);
    assert Word(upper / 256, upper % 256) == upper;
    assert Word(upper, r.code % 256) == r.code;
  }

  lemma {:induction false} StoredCodesOk(ds: seq<Dtc>)
    requires forall i :: 0 <= i < |ds| ==> ds[i].code < 0x100_0000
    ensures CodesOk(StoredCodes(ds))
  {
    if ds != [] {
      StoredCodesOk(ds[..|ds| - 1]);
    }
  }

  /** Decodes four-octet records behind a three-octet header. */
  method DecodeUds(response: array<byte>, dtcs: array<DtcRecord>, records: nat, ghost codes: seq<DtcRecord>)
    requires 3 + 4 * records <= response.Length && records <= dtcs.Length && |codes| == records && CodesOk(codes)
    requires forall i :: 0 <= i < records ==> response[3 + 4 * i..3 + 4 * i + 4] == UdsOctets(codes[i])
    modifies dtcs
    ensures dtcs[..records] == codes
  {
    var i := 0;
    while i < records
      invariant 0 <= i <= records && dtcs[..i] == codes[..i]
    {
      var offset := 3 + i * 4;
      ghost var octets := response[offset..offset + 4];
      assert octets == UdsOctets(codes[i]);
      RecordOfOctets(codes[i]);
      assert response[offset] == octets[0] && response[offset + 1] == octets[1];
      assert response[offset + 2] == octets[2] && response[offset + 3] == octets[3];
      var code := Word(Word(response[offset], response[offset + 1]), response[offset + 2]);
      dtcs[i] := DtcRecord(code, response[offset + 3]);
      assert dtcs[..i + 1] == dtcs[..i] + [dtcs[i]];
      i := i + 1;
    }
  }

  /** Decodes two-octet codes behind a one-octet header. */
  method DecodeObd(response: array<byte>, dtcs: array<DtcRecord>, records: nat, ghost codes: seq<DtcRecord>)
    requires 1 + 2 * records <= response.Length && records <= dtcs.Length && |codes| == records && CodesOk(codes)
    requires forall i :: 0 <= i < records ==> response[1 + 2 * i..1 + 2 * i + 2] == ObdOctets(codes[i])
    modifies dtcs
    ensures forall i :: 0 <= i < records ==> dtcs[i] == DtcRecord(codes[i].code / 256, 0)
  {
    var i := 0;
    while i < records
      invariant 0 <= i <= records
      invariant forall k :: 0 <= k < i ==> dtcs[k] == DtcRecord(codes[k].code / 256, 0)
    {
      ghost var octets := response[1 + 2 * i..1 + 2 * i + 2];
      assert octets == ObdOctets(codes[i]);
      RecordOfOctets(codes[i]);
      assert response[1 + i * 2] == octets[0] && response[2 + i * 2] == octets[1];
      dtcs[i] := DtcRecord(Word(response[1 + i * 2], response[2 + i * 2]), 0);
      i := i + 1;
    }
  }

  /** Where record `i` lies behind a header of `n` octets. */
  lemma BehindHeader(header: seq<byte>, body: seq<byte>, at: nat, n: nat)
    requires at + n <= |body|
    ensures (header + body)[|header| + at..|header| + at + n] == body[at..at + n]
  {
  }

  lemma SliceOfSlice(s: seq<byte>, length: nat, from: nat, to: nat)
    requires from <= to <= length <= |s|
    ensures s[..length][from..to] == s[from..to]
  {
  }

  /** The report of an answer at the front of a buffer. */
  lemma ReportInBuffer(s: seq<byte>, length: nat, header: seq<byte>, report: seq<byte>, at: nat, n: nat)
    requires length <= |s| && s[..length] == header + report && at + n <= |report|
    ensures |header| + at + n <= length
    ensures s[|header| + at..|header| + at + n] == report[at..at + n]
  {
    BehindHeader(header, report, at, n);
    SliceOfSlice(s, length, |header| + at, |header| + at + n);
  }

  /** Asks for all trouble codes; the answer carries the stored ones. */
  method QueryUds(server: Server, response: array<byte>, ghost codes: seq<DtcRecord>) returns (ret: int, length: nat)
    requires server.Wf() && EcuModel.Valid(server.View()) && response.Length == MAX_PAYLOAD
    requires codes == StoredCodes(server.View().dtcs)
    modifies server, server.dtcs, response
    ensures server.View() == old(server.View()) && server.asked == old(server.asked) + [[0x19, 0x02, 0xff]]
    ensures ret == 0 && length == 3 + 4 * |codes| <= MAX_PAYLOAD && response[1] == 0x02
    ensures forall i :: 0 <= i < |codes| ==> response[3 + 4 * i..3 + 4 * i + 4] == UdsOctets(codes[i])
  {
    hide DtcReport, StoredCodes, UdsOctets, Process;
    ReportsAreAnswers(server.View());
    ghost var ds := server.View().dtcs;
    ret, length := Expect(server, [0x19, 0x02, 0xff], response, MAX_PAYLOAD, 0x59, 3);
    ReportsListStored(ds);
    ghost var report := DtcReport(ds, 255);
    ghost var answer := response[..length];
    assert answer == [0x59, 0x02, 0xff] + report;
    assert response[1] == answer[1];
    forall i | 0 <= i < |codes| ensures response[3 + 4 * i..3 + 4 * i + 4] == UdsOctets(codes[i]) {
      ReportInBuffer(response[..], length, [0x59, 0x02, 0xff], report, 4 * i, 4);
    }
  }

  lemma ReportsAreAnswers(m: Ecu)
    requires EcuModel.Valid(m)
    ensures Process(m, [0x03]) == (m, [0x43] + ObdReport(m.dtcs))
    ensures Process(m, [0x19, 0x02, 0xff]) == (m, [0x59, 0x02, 0xff] + DtcReport(m.dtcs, 255))
  {
  }

  method QueryObd(server: Server, response: array<byte>, ghost codes: seq<DtcRecord>) returns (ret: int, length: nat)
    requires server.Wf() && EcuModel.Valid(server.View()) && response.Length == MAX_PAYLOAD
    requires codes == StoredCodes(server.View().dtcs)
    modifies server, server.dtcs, response
    ensures server.View() == old(server.View()) && server.asked == old(server.asked) + [[0x03]]
    ensures ret == 0 && length == 1 + 2 * |codes| <= MAX_PAYLOAD
    ensures forall i :: 0 <= i < |codes| ==> response[1 + 2 * i..1 + 2 * i + 2] == ObdOctets(codes[i])
  {
    hide ObdReport, StoredCodes, ObdOctets, Process;
    ReportsAreAnswers(server.View());
    ghost var ds := server.View().dtcs;
    ret, length := Expect(server, [0x03], response, MAX_PAYLOAD, 0x43, 1);
    ReportsListStored(ds);
    ghost var report := ObdReport(ds);
    assert response[..length] == [0x43] + report;
    forall i | 0 <= i < |codes| ensures response[1 + 2 * i..1 + 2 * i + 2] == ObdOctets(codes[i]) {
      ReportInBuffer(response[..], length, [0x43], report, 2 * i, 2);
    }
  }

  /** Reports every stored code with its status. */
  method UdsReadDtcs(server: Server, dtcs: array<DtcRecord>, capacity: nat) returns (ret: int, count: nat)
    requires server.Wf() && EcuModel.Valid(server.View()) && capacity <= dtcs.Length
    modifies server, server.dtcs, dtcs
    ensures server.View() == old(server.View()) && server.asked == old(server.asked) + [[0x19, 0x02, 0xff]]
    ensures ret == (if |StoredCodes(old(server.View()).dtcs)| <= capacity then 0 else -ENOSPC)
    ensures ret == 0 ==>
              count == |StoredCodes(old(server.View()).dtcs)| && dtcs[..count] == StoredCodes(old(server.View()).dtcs)
  {
    var response := new byte[MAX_PAYLOAD];
    ghost var codes := StoredCodes(server.View().dtcs);
    StoredCodesOk(server.View().dtcs);
    var length;
    ret, length := QueryUds(server, response, codes);
    count := capacity;
    if ret < 0 {
      return;
    }
    if response[1] != 0x02 || (length - 3) % 4 != 0 {
      return -EPROTO, count;
    }
    var records := (length - 3) / 4;
    if records > capacity {
      return -ENOSPC, count;
    }
    DecodeUds(response, dtcs, records, codes);
    count := records;
  }

  /** Reports the same codes without their last octet and without a status. */
  method ObdReadDtcs(server: Server, dtcs: array<DtcRecord>, capacity: nat) returns (ret: int, count: nat)
    requires server.Wf() && EcuModel.Valid(server.View()) && capacity <= dtcs.Length
    modifies server, server.dtcs, dtcs
    ensures server.View() == old(server.View()) && server.asked == old(server.asked) + [[0x03]]
    ensures ret == (if |StoredCodes(old(server.View()).dtcs)| <= capacity then 0 else -ENOSPC)
    ensures ret == 0 ==>
              && count == |StoredCodes(old(server.View()).dtcs)|
              && forall i :: 0 <= i < count ==>
                   dtcs[i] == DtcRecord(StoredCodes(old(server.View()).dtcs)[i].code / 256, 0)
  {
    var response := new byte[MAX_PAYLOAD];
    ghost var codes := StoredCodes(server.View().dtcs);
    StoredCodesOk(server.View().dtcs);
    var length;
    ret, length := QueryObd(server, response, codes);
    count := capacity;
    if ret < 0 {
      return;
    }
    if (length - 1) % 2 != 0 {
      return -EPROTO, count;
    }
    var records := (length - 1) / 2;
    if records > capacity {
      return -ENOSPC, count;
    }
    DecodeObd(response, dtcs, records, codes);
    count := records;
  }

  // ---- Echo ----------------------------------------------------------------

  /** The echo routine returns every payload of up to 124 octets unchanged,
      behind its four-octet header, whenever the caller's buffer holds both. */
  method UdsEcho(server: Server, payload: seq<byte>, response: array<byte>, capacity: nat)
    returns (ret: int, length: nat)
    requires server.Wf() && capacity <= response.Length
    modifies server, server.dtcs, response
    ensures server.View() == old(server.View())
    ensures ret == 0 <==> |payload| + 4 <= 128 && |payload| + 4 <= capacity
    ensures server.asked ==
            old(server.asked) + if |payload| <= 124 && capacity > 0 then [[0x31, 0x01, 0xff, 0x00] + payload] else []
    ensures ret == 0 ==> length == |payload| + 4 && response[4..length] == payload
  {
    length := capacity;
    if |payload| > MAX_PAYLOAD - 4 || capacity == 0 {
      return -EINVAL, length;
    }
    var request: Payload := [0x31, 0x01, 0xff, 0x00] + payload;
    var received;
    ret, received := Expect(server, request, response, capacity, 0x71, |payload| + 4);
    if ret < 0 {
      return;
    }
    ghost var answer := response[..received];
    assert answer == [0x71] + request[1..];
    assert response[1] == answer[1] && response[2] == answer[2] && response[3] == answer[3];
    assert response[4..received] == answer[4..] == payload;
    if received != |payload| + 4 || response[1] != 0x01 || response[2] != request[2] || response[3] != request[3]
       || response[4..received] != payload {
      return -EPROTO, length;
    }
    length := received;
  }
}
