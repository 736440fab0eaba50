/** The client's readings: identification, current data and supported identifiers,
    as it decodes them from the ECU in any valid state. */
module DiagReadings {
  import opened Bytes
  import opened EcuModel
  import opened EcuServer
  import opened DiagClient
  import EcuAnswers
  import opened Errno

  /** "OK8MP2026CAN00001" and the closing NUL. */
  predicate IsVin(vin: seq<byte>) {
    vin == [79, 75, 56, 77, 80, 50, 48, 50, 54, 67, 65, 78, 48, 48, 48, 48, 49, 0]
  }

  method CopyVin(response: array<byte>, vin: array<byte>)
    requires response.Length >= 20 && vin.Length == 18 && vin != response
    modifies vin
    ensures vin[..] == response[3..20] + [0]
  {
    forall i | 0 <= i < 17 {
      vin[i] := response[3 + i];
    }
    vin[17] := 0;
  }

  method UdsReadVin(server: Server, vin: array<byte>) returns (ret: int)
    requires server.Wf() && EcuModel.Valid(server.View()) && vin.Length == 18
    modifies server, server.dtcs, vin
    ensures ret == 0 && IsVin(vin[..]) && server.View() == old(server.View())
    ensures server.asked == old(server.asked) + [[0x22, 0xf1, 0x90]]
  {
    var response := new byte[MAX_PAYLOAD];
    var length;
    EcuAnswers.Identification(server.View());
    ret, length := Expect(server, [0x22, 0xf1, 0x90], response, MAX_PAYLOAD, 0x62, 20);
    ghost var answer := response[..length];
    assert |answer| == 20 && answer[1] == response[1] && answer[2] == response[2];
    if ret == 0 && (length != 20 || response[1] != 0xf1 || response[2] != 0x90) {
      ret := -EPROTO;
    }
    if ret < 0 {
      return;
    }
    assert answer[3..20] == response[3..20];
    CopyVin(response, vin);
  }

  method ObdReadVin(server: Server, vin: array<byte>) returns (ret: int)
    requires server.Wf() && EcuModel.Valid(server.View()) && vin.Length == 18
    modifies server, server.dtcs, vin
    ensures ret == 0 && IsVin(vin[..]) && server.View() == old(server.View())
    ensures server.asked == old(server.asked) + [[0x09, 0x02]]
  {
    var response := new byte[MAX_PAYLOAD];
    var length;
    EcuAnswers.Identification(server.View());
    ret, length := Expect(server, [0x09, 0x02], response, MAX_PAYLOAD, 0x49, 20);
    ghost var answer := response[..length];
    assert |answer| == 20 && answer[1] == response[1] && answer[2] == response[2];
    if ret == 0 && (length != 20 || response[1] != 0x02 || response[2] != 0x01) {
      ret := -EPROTO;
    }
    if ret < 0 {
      return;
    }
    assert answer[3..20] == response[3..20];
    CopyVin(response, vin);
  }

  /** The coolant temperature in degrees: 110 in over-temperature, 60 otherwise. */
  method ObdReadCoolant(server: Server) returns (ret: int, coolant: int)
    requires server.Wf() && EcuModel.Valid(server.View())
    modifies server, server.dtcs
    ensures ret == 0 && server.View() == old(server.View())
    ensures coolant == if server.View().state == 1 then 110 else 60
    ensures server.asked == old(server.asked) + [[0x01, 0x05]]
  {
    var response := new byte[MAX_PAYLOAD];
    var length;
    coolant := 0;
    EcuAnswers.Readings(server.View());
    ret, length := Expect(server, [0x01, 0x05], response, MAX_PAYLOAD, 0x41, 3);
    ghost var answer := response[..length];
    assert |answer| == 3 && answer[1] == response[1] && answer[2] == response[2];
    if ret == 0 && (length != 3 || response[1] != 0x05) {
      ret := -EPROTO;
    }
    if ret < 0 {
      return;
    }
    coolant := response[2] - 40;
  }

  /** The voltage in millivolts: 10500 in low voltage, 12600 otherwise. */
  method ObdReadVoltage(server: Server) returns (ret: int, battery: nat)
    requires server.Wf() && EcuModel.Valid(server.View())
    modifies server, server.dtcs
    ensures ret == 0 && server.View() == old(server.View())
    ensures battery == if server.View().state == 2 then 10500 else 12600
    ensures server.asked == old(server.asked) + [[0x01, 0x42]]
  {
    var response := new byte[MAX_PAYLOAD];
    var length;
    battery := 0;
    EcuAnswers.Readings(server.View());
    ret, length := Expect(server, [0x01, 0x42], response, MAX_PAYLOAD, 0x41, 4);
    ghost var answer := response[..length];
    assert |answer| == 4 && answer[1] == response[1] && answer[2] == response[2] && answer[3] == response[3];
    if ret == 0 && (length != 4 || response[1] != 0x42) {
      ret := -EPROTO;
    }
    if ret < 0 {
      return;
    }
    battery := Word(response[2], response[3]);
  }

  /** The map of supported identifiers above `base`, as a 32-bit number; -EPROTO
      for an identifier that is no such map. */
  method ObdSupportedPids(server: Server, base: byte) returns (ret: int, supported: nat)
    requires server.Wf() && EcuModel.Valid(server.View())
    modifies server, server.dtcs
    ensures server.View() == old(server.View())
    ensures base == 0x00 ==> ret == 0 && supported == 0x88000001
    ensures base == 0x20 ==> ret == 0 && supported == 0x00000001
    ensures base == 0x40 ==> ret == 0 && supported == 0x40000000
    ensures base !in {0x00, 0x01, 0x20, 0x40} ==> ret == -71
    ensures server.asked == old(server.asked) + [[0x01, base]]
  {
    var response := new byte[MAX_PAYLOAD];
    var length;
    supported := 0;
    ghost var m := server.View();
    EcuAnswers.SupportedMaps(m);
    EcuAnswers.Readings(m);
    EcuAnswers.RefusedExactly(m, [0x01, base]);
    ret, length := Expect(server, [0x01, base], response, MAX_PAYLOAD, 0x41, 6);
    if ret < 0 {
      return;
    }
    ghost var answer := response[..length];
    assert answer[1] == response[1] && answer[2] == response[2] && answer[3] == response[3];
    assert answer[4] == response[4] && answer[5] == response[5];
    if length != 6 || response[1] != base {
      ret := -EPROTO;
      return;
    }
    supported := Word(response[2], response[3]) * 0x1_0000 + Word(response[4], response[5]);
  }

  method UdsTesterPresent(server: Server) returns (ret: int)
    requires server.Wf() && EcuModel.Valid(server.View())
    modifies server, server.dtcs
    ensures ret == 0 && server.View() == old(server.View())
    ensures server.asked == old(server.asked) + [[0x3e, 0x00]]
  {
    var response := new byte[MAX_PAYLOAD];
    var length;
    EcuAnswers.Changes(server.View(), 0x00);
    ret, length := Expect(server, [0x3e, 0x00], response, MAX_PAYLOAD, 0x7e, 2);
  }

  method ObdClearDtcs(server: Server) returns (ret: int)
    requires server.Wf() && EcuModel.Valid(server.View())
    modifies server, server.dtcs
    ensures ret == 0 && server.View() == Clear(old(server.View()))
    ensures server.asked == old(server.asked) + [[0x04]]
  {
    var response := new byte[MAX_PAYLOAD];
    var length;
    EcuAnswers.Changes(server.View(), 0x00);
    ret, length := Expect(server, [0x04], response, MAX_PAYLOAD, 0x44, 1);
    ret := if ret < 0 then ret else if length == 1 then 0 else -EPROTO;
  }

  /** Identifier 01 carries the lamp bit and the count that the vehicle status
      reports, and the status the temperature and voltage that the readings give. */
  lemma ReadingsAgree(m: Ecu)
    requires EcuModel.Valid(m)
    ensures
      var s := StatusOf(m);
      && Process(m, [0x01, 0x01]).1[2] == (if s.active == 0 then 0 else 128 + s.active)
      && Process(m, [0x01, 0x05]).1[2] == s.coolant + 40
      && Word(Process(m, [0x01, 0x42]).1[2], Process(m, [0x01, 0x42]).1[3]) == s.battery
  {
    EcuAnswers.FaultCounts(m);
    EcuAnswers.Readings(m);
  }
}
