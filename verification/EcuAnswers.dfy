/** The ECU's answers as octets: what each request gets from every valid state. */
module EcuAnswers {
  import opened Bytes
  import opened EcuModel

  // ---- Refusals ------------------------------------------------------------

  /** The code of the refusal, or 0 if the request is served: 0x11 for an unknown
      service, 0x12 for an unknown function of one, 0x13 for a wrong length, 0x31
      for what is out of range, 0x22 for a write outside the extended session. */
  function Refusal(q: Payload, session: byte): byte
    requires q != []
  {
    var n := |q|;
    match q[0]
    case 0x10 => if n == 2 && (q[1] == 0x01 || q[1] == 0x03) then 0 else 0x12
    case 0x3e => if n == 2 && (q[1] == 0x00 || q[1] == 0x80) then 0 else 0x12
    case 0x19 => if n == 3 && q[1] == 0x02 then 0 else 0x12
    case 0x22 => if n != 3 then 0x13 else if q[1] == 0xf1 && (q[2] == 0x00 || q[2] == 0x90) then 0 else 0x31
    case 0x2e =>
      if n != 4 || q[1] != 0xf1 || q[2] != 0x00 || q[3] > 2 then 0x31 else if session != 0x03 then 0x22 else 0
    case 0x14 => if n == 4 && q[1] == 0xff && q[2] == 0xff && q[3] == 0xff then 0 else 0x31
    case 0x31 => if n >= 4 && q[1] == 0x01 && q[2] == 0xff && q[3] == 0x00 then 0 else 0x31
    case 0x01 => if n != 2 then 0x13 else if q[1] in {0x00, 0x01, 0x05, 0x20, 0x40, 0x42} then 0 else 0x31
    case 0x09 => if n == 2 && q[1] == 0x02 then 0 else 0x31
    case 0x03 => if n != 1 then 0x13 else 0
    case 0x04 => if n != 1 then 0x13 else 0
    case _ => 0x11
  }

  /** A request is refused exactly with that code and changes nothing, and any
      other gets the positive answer of its service. */
  lemma RefusedExactly(m: Ecu, q: Payload)
    requires Valid(m) && 1 <= |q| <= 128
    ensures
      var (m', answer), service: nat := Process(m, q), q[0];
      if Refusal(q, m.session) != 0 then m' == m && answer == [0x7f, q[0], Refusal(q, m.session)]
      else answer[0] == service + 0x40
  {
    hide Apply, Clear, StatusFields, Checksum;
  }

  // ---- Readings ------------------------------------------------------------

  /** Sessions with the timing 50 ms and 5 s, the tester's presence, and what a
      write and a clear leave. */
  lemma Changes(m: Ecu, s: byte)
    requires Valid(m)
    ensures s == 0x01 || s == 0x03 ==> Process(m, [0x10, s]) == (m.(session := s), [0x50, s, 0x00, 0x32, 0x01, 0xf4])
    ensures s == 0x00 || s == 0x80 ==> Process(m, [0x3e, s]) == (m, [0x7e, 0x00])
    ensures s <= 2 && m.session == 0x03 ==> Process(m, [0x2e, 0xf1, 0x00, s]) == (Apply(m, s), [0x6e, 0xf1, 0x00, s])
    ensures Process(m, [0x14, 0xff, 0xff, 0xff]) == (Clear(m), [0x54]) && Process(m, [0x04]) == (Clear(m), [0x44])
  {
    hide Apply, Clear;
  }

  /** The current data: coolant with an offset of 40 degrees, the voltage in
      millivolts, and the number of active faults with the lamp bit. */
  lemma Readings(m: Ecu)
    requires Valid(m)
    ensures Process(m, [0x01, 0x05]) == (m, [0x41, 0x05, if m.state == 1 then 150 else 100])
    ensures Process(m, [0x01, 0x42]) == (m, if m.state == 2 then [0x41, 0x42, 0x29, 0x04] else [0x41, 0x42, 0x31, 0x38])
    ensures Process(m, [0x01, 0x01]) == (m, [0x41, 0x01, if m.state == 0 then 0x00 else 0x81, 0, 0, 0])
  {
    FaultCounts(m);
    hide CountActive;
    assert High(10500) == 0x29 && Low(10500) == 0x04 && High(12600) == 0x31 && Low(12600) == 0x38;
  }

  /** At most one fault is active, and those with a status are stored. */
  lemma FaultCounts(m: Ecu)
    requires Valid(m)
    ensures CountActive(m.dtcs) == if m.state == 0 then 0 else 1
    ensures CountStored(m.dtcs) ==
            (if m.dtcs[0].status != 0 then 1 else 0) + if m.dtcs[1].status != 0 then 1 else 0
  {
    var ds := m.dtcs;
    assert ds[..1] == [ds[0]] && ds[..1][..0] == [];
    assert CountActive(ds) == CountActive([ds[0]]) + (if ds[1].Active() then 1 else 0);
    assert CountStored(ds) == CountStored([ds[0]]) + (if ds[1].Stored() then 1 else 0);
  }

  /** The vehicle identification number, from both services. */
  lemma Identification(m: Ecu)
    requires Valid(m)
    ensures Process(m, [0x22, 0xf1, 0x90]) ==
            (m, [0x62, 0xf1, 0x90, 79, 75, 56, 77, 80, 50, 48, 50, 54, 67, 65, 78, 48, 48, 48, 48, 49])
    ensures Process(m, [0x09, 0x02]) ==
            (m, [0x49, 0x02, 0x01, 79, 75, 56, 77, 80, 50, 48, 50, 54, 67, 65, 78, 48, 48, 48, 48, 49])
  {
    VinFollows([0x62, 0xf1, 0x90]);
    VinFollows([0x49, 0x02, 0x01]);
  }

  lemma VinFollows(head: Payload)
    requires |head| == 3
    ensures head + VIN ==
            [head[0], head[1], head[2], 79, 75, 56, 77, 80, 50, 48, 50, 54, 67, 65, 78, 48, 48, 48, 48, 49]
  {
  }

  /** The vehicle status: state, coolant, voltage, active and stored faults, the low
      half of the sequence number, and the exclusive or of these eight octets. */
  lemma VehicleStatusIs(m: Ecu)
    requires Valid(m)
    ensures
      var (m', answer) := Process(m, [0x22, 0xf1, 0x00]);
      && m' == m && |answer| == 12 && answer[..3] == [0x62, 0xf1, 0x00]
      && answer[3..11] ==
         [m.state, if m.state == 1 then 110 else 60] + (if m.state == 2 then [0x29, 0x04] else [0x31, 0x38]) +
         [if m.state == 0 then 0 else 1,
          (if m.dtcs[0].status != 0 then 1 else 0) + if m.dtcs[1].status != 0 then 1 else 0,
          m.sequence / 256 % 256, m.sequence % 256]
      && answer[11] == Checksum(answer[3..11])
  {
    hide CountActive, CountStored, Checksum;
    var f := StatusFields(m);
    StatusFieldsAre(m);
    var answer := Process(m, [0x22, 0xf1, 0x00]).1;
    assert answer == [0x62, 0xf1, 0x00] + f + [Checksum(f)];
    assert answer[3..11] == f && answer[..3] == [0x62, 0xf1, 0x00];
  }

  lemma StatusFieldsAre(m: Ecu)
    requires Valid(m)
    ensures StatusFields(m) ==
         [m.state, if m.state == 1 then 110 else 60] + (if m.state == 2 then [0x29, 0x04] else [0x31, 0x38]) +
         [if m.state == 0 then 0 else 1,
          (if m.dtcs[0].status != 0 then 1 else 0) + if m.dtcs[1].status != 0 then 1 else 0,
          m.sequence / 256 % 256, m.sequence % 256]
  {
    FaultCounts(m);
    hide CountActive, CountStored;
    assert High(10500) == 0x29 && Low(10500) == 0x04 && High(12600) == 0x31 && Low(12600) == 0x38;
  }

  /** A bit of the checksum is set exactly if it is set in an odd number of the
      eight octets. */
  lemma ChecksumIsParity(s: seq<byte>, k: nat)
    requires |s| == 8 && k < 8
    ensures Bit(Checksum(s), k) ==
            (Bit(s[0], k) + Bit(s[1], k) + Bit(s[2], k) + Bit(s[3], k) +
             Bit(s[4], k) + Bit(s[5], k) + Bit(s[6], k) + Bit(s[7], k)) % 2
  {
    hide Xor, Bit;
    var x1 := Xor(s[0], s[1]);
    var x2 := Xor(x1, s[2]);
    var x3 := Xor(x2, s[3]);
    var x4 := Xor(x3, s[4]);
    var x5 := Xor(x4, s[5]);
    var x6 := Xor(x5, s[6]);
    XorParity(s[0], s[1], k);
    XorParity(x1, s[2], k);
    XorParity(x2, s[3], k);
    XorParity(x3, s[4], k);
    XorParity(x4, s[5], k);
    XorParity(x5, s[6], k);
    XorParity(x6, s[7], k);
  }

  lemma XorParity(a: byte, b: byte, k: nat)
    requires k < 8
    ensures Bit(Xor(a, b), k) == (Bit(a, k) + Bit(b, k)) % 2
  {
    XorBitwise(a, b, 8, k);
    BitBelow(a, k);
    BitBelow(b, k);
  }

  // ---- Supported identifiers -----------------------------------------------

  /** The three maps of supported identifiers. */
  lemma SupportedMaps(m: Ecu)
    requires Valid(m)
    ensures Process(m, [0x01, 0x00]) == (m, [0x41, 0x00, 0x88, 0x00, 0x00, 0x01])
    ensures Process(m, [0x01, 0x20]) == (m, [0x41, 0x20, 0x00, 0x00, 0x00, 0x01])
    ensures Process(m, [0x01, 0x40]) == (m, [0x41, 0x40, 0x40, 0x00, 0x00, 0x00])
  {
  }

  /** Bit 32 - k of the map for `base` stands for identifier base + k. */
  predicate Supports(m: Ecu, base: byte, k: nat)
    requires |m.dtcs| == 2 && 1 <= k <= 32
  {
    var answer := Process(m, [0x01, base]).1;
    |answer| == 6 && Bit(answer[2 + (k - 1) / 8], 7 - (k - 1) % 8) == 1
  }

  /** The maps tell the truth: an identifier is marked exactly if a request for it
      is served. */
  lemma SupportedIsServed(m: Ecu, base: byte, k: nat)
    requires Valid(m) && (base == 0x00 || base == 0x20 || base == 0x40) && 1 <= k <= 32
    ensures Supports(m, base, k) <==> Process(m, [0x01, base + k]).1[0] == 0x41
  {
    SupportedMaps(m);
    MapBits(k);
    RefusedExactly(m, [0x01, base + k]);
    hide Process, Bit, Valid;
  }

  /** The bits of the octets that occur in the maps. */
  lemma MapBits(k: nat)
    requires 1 <= k <= 32
    ensures
      var b := 7 - (k - 1) % 8;
      && (Bit(0x88, b) == 1 <==> b == 7 || b == 3) && (Bit(0x01, b) == 1 <==> b == 0)
      && (Bit(0x40, b) == 1 <==> b == 6) && Bit(0x00, b) == 0
  {
    var b := 7 - (k - 1) % 8;
    assert b == 0 || b == 1 || b == 2 || b == 3 || b == 4 || b == 5 || b == 6 || b == 7;
  }

  // ---- Trouble codes -------------------------------------------------------

  predicate ShareBit(a: byte, b: byte) {
    exists k :: 0 <= k < 8 && Bit(a, k) == 1 && Bit(b, k) == 1
  }

  lemma AndSharesBit(a: byte, b: byte)
    ensures And(a, b) != 0 <==> ShareBit(a, b)
  {
    if ShareBit(a, b) {
      var k :| 0 <= k < 8 && Bit(a, k) == 1 && Bit(b, k) == 1;
      AndBitwise(a, b, 8, k);
      ZeroBits(k);
    } else if And(a, b) != 0 {
      forall k | 0 <= k < 8 ensures Bit(And(a, b), k) == Bit(0, k) {
        AndBitwise(a, b, 8, k);
        ZeroBits(k);
      }
      Pow2Of8();
      SameBits(And(a, b), 0, 8);
    }
  }

  lemma CodeOctets()
    ensures P0217 / 0x1_0000 % 256 == 0x02 && High(P0217) == 0x17 && Low(P0217) == 0x00
    ensures P0562 / 0x1_0000 % 256 == 0x05 && High(P0562) == 0x62 && Low(P0562) == 0x00
  {
  }

  /** The report by status mask lists P0217 and P0562, in this order, each with its
      status, if the status shares a bit with the mask. */
  lemma ReportByMask(m: Ecu, mask: byte)
    requires Valid(m)
    ensures
      var first, second := m.dtcs[0].status, m.dtcs[1].status;
      Process(m, [0x19, 0x02, mask]) ==
      (m, [0x59, 0x02, 0xff] + ((if ShareBit(first, mask) then [0x02, 0x17, 0x00, first] else []) +
                                (if ShareBit(second, mask) then [0x05, 0x62, 0x00, second] else [])))
  {
    var ds := m.dtcs;
    AndSharesBit(ds[0].status, mask);
    AndSharesBit(ds[1].status, mask);
    hide And, ShareBit;
    assert ds[..1] == [ds[0]] && ds[..1][..0] == [] && DtcReport([], mask) == [];
    CodeOctets();
    assert DtcReport([ds[0]], mask) == if And(ds[0].status, mask) == 0 then [] else [0x02, 0x17, 0x00, ds[0].status];
  }

  /** The emission report lists the same codes without their last octet. */
  lemma ReportStored(m: Ecu)
    requires Valid(m)
    ensures Process(m, [0x03]) ==
            (m, [0x43] + ((if m.dtcs[0].status != 0 then [0x02, 0x17] else []) +
                          (if m.dtcs[1].status != 0 then [0x05, 0x62] else [])))
  {
    var ds := m.dtcs;
    assert ds[..1] == [ds[0]] && ds[..1][..0] == [] && ObdReport([]) == [];
    CodeOctets();
    assert ObdReport([ds[0]]) == if ds[0].status == 0 then [] else [0x02, 0x17];
  }
}
