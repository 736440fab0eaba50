/** The ECU's diagnostic server: globals updated in place and a response buffer
    filled octet by octet, proved against EcuModel. */
module EcuServer {
  import opened Bytes
  import opened EcuModel

  class Server {
    var state: nat
    var session: byte
    var coolant: byte
    var battery: nat
    var sequence: nat
    const dtcs: array<Dtc>
    /** The requests processed so far. */
    ghost var asked: seq<Payload>

    ghost predicate Wf()
      reads this
    {
      dtcs.Length == 2
    }

    ghost function View(): (m: Ecu)
      requires Wf()
      reads this, dtcs
      ensures |m.dtcs| == 2
    {
      Ecu(state, session, coolant, battery, dtcs[..], sequence)
    }

    /** Power-up, including the initial state applied by setup. */
    constructor ()
      ensures Wf() && View() == BOOTED && fresh(dtcs) && asked == []
    {
      state, session, coolant, battery, sequence, asked := NORMAL, DEFAULT_SESSION, 60, 12600, 0, [];
      dtcs := new Dtc[2](i => if i == 0 then Dtc(P0217, 0, 0) else Dtc(P0562, 0, 0));
      new;
      assert dtcs[..] == [Dtc(P0217, 0, 0), Dtc(P0562, 0, 0)];
      ApplyState(NORMAL);
    }

    method SetDtcActive(i: nat, active: bool)
      requires Wf() && i < 2
      modifies dtcs
      ensures dtcs[..] == old(dtcs[..])[i := SetActive(old(dtcs[i]), active)]
    {
      var d := dtcs[i];
      if active {
        if d.status % 2 == 0 {
          d := d.(occurrences := (d.occurrences + 1) % 0x1_0000);
        }
        d := d.(status := d.status / 16 * 16 + 15);
      } else {
        d := d.(status := d.status / 8 * 8);
      }
      dtcs[i] := d;
    }

    method ApplyState(newState: nat)
      requires Wf()
      modifies this, dtcs
      ensures View() == Apply(old(View()), newState) && asked == old(asked)
    {
      state := newState;
      SetDtcActive(0, newState == OVER_TEMPERATURE);
      SetDtcActive(1, newState == LOW_VOLTAGE);
      if newState == OVER_TEMPERATURE {
        coolant, battery := 110, 12600;
      } else if newState == LOW_VOLTAGE {
        coolant, battery := 60, 10500;
      } else {
        coolant, battery := 60, 12600;
      }
    }

    method ClearDtcs()
      requires Wf()
      modifies this, dtcs
      ensures View() == Clear(old(View())) && asked == old(asked)
    {
      var i := 0;
      while i < 2
        invariant 0 <= i <= 2
        invariant View() == old(View()).(dtcs := dtcs[..]) && asked == old(asked)
        invariant forall k :: 0 <= k < i ==> dtcs[k] == Dtc(old(dtcs[k].code), 0, 0)
        invariant forall k :: i <= k < 2 ==> dtcs[k] == old(dtcs[k])
      {
        dtcs[i] := dtcs[i].(status := 0, occurrences := 0);
        i := i + 1;
      }
      ghost var m := View();
      ApplyState(state);
      assert m.dtcs == [Dtc(old(dtcs[0].code), 0, 0), Dtc(old(dtcs[1].code), 0, 0)];
    }

    method ActiveCount() returns (n: nat)
      requires Wf()
      ensures n == CountActive(dtcs[..])
    {
      n := 0;
      var i := 0;
      while i < dtcs.Length
        invariant 0 <= i <= dtcs.Length && n == CountActive(dtcs[..i])
      {
        assert dtcs[..i + 1][..i] == dtcs[..i];
        if dtcs[i].Active() {
          n := n + 1;
        }
        i := i + 1;
      }
      assert dtcs[..i] == dtcs[..];
    }

    method StoredCount() returns (n: nat)
      requires Wf()
      ensures n == CountStored(dtcs[..])
    {
      n := 0;
      var i := 0;
      while i < dtcs.Length
        invariant 0 <= i <= dtcs.Length && n == CountStored(dtcs[..i])
      {
        assert dtcs[..i + 1][..i] == dtcs[..i];
        if dtcs[i].Stored() {
          n := n + 1;
        }
        i := i + 1;
      }
      assert dtcs[..i] == dtcs[..];
    }

    /** Appends the records selected by `mask` behind the three header octets. */
    method ReportDtcs(response: array<byte>, mask: byte) returns (length: nat)
      requires Wf() && response.Length == MAX_PAYLOAD
      modifies response
      ensures length <= MAX_PAYLOAD && response[..length] == [0x59, 0x02, 0xff] + DtcReport(dtcs[..], mask)
    {
      response[0], response[1], response[2] := 0x59, 0x02, 0xff;
      length := 3;
      var i := 0;
      while i < dtcs.Length
        invariant 0 <= i <= dtcs.Length && 3 <= length <= 3 + 4 * i
        invariant response[..length] == [0x59, 0x02, 0xff] + DtcReport(dtcs[..i], mask)
      {
        var d := dtcs[i];
        assert dtcs[..i + 1][..i] == dtcs[..i];
        if And(d.status, mask) != 0 {
          ghost var before := response[..length];
          response[length], response[length + 1] := d.code / 0x1_0000 % 256, d.code / 256 % 256;
          response[length + 2], response[length + 3] := d.code % 256, d.status;
          length := length + 4;
          assert response[..length] == before + [d.code / 0x1_0000 % 256, High(d.code), Low(d.code), d.status];
        }
        i := i + 1;
      }
      assert dtcs[..i] == dtcs[..];
    }

    method ReportObd(response: array<byte>) returns (length: nat)
      requires Wf() && response.Length == MAX_PAYLOAD
      modifies response
      ensures length <= MAX_PAYLOAD && response[..length] == [0x43] + ObdReport(dtcs[..])
    {
      response[0] := 0x43;
      length := 1;
      var i := 0;
      while i < dtcs.Length
        invariant 0 <= i <= dtcs.Length && 1 <= length <= 1 + 2 * i
        invariant response[..length] == [0x43] + ObdReport(dtcs[..i])
      {
        var d := dtcs[i];
        assert dtcs[..i + 1][..i] == dtcs[..i];
        if d.status != 0 {
          ghost var before := response[..length];
          var saeCode := d.code / 256 % 0x1_0000;
          SaeOctets(d.code);
          response[length], response[length + 1] := saeCode / 256, saeCode % 256;
          length := length + 2;
          assert response[..length] == before + [d.code / 0x1_0000 % 256, High(d.code)];
        }
        i := i + 1;
      }
      assert dtcs[..i] == dtcs[..];
    }

    method ReadVehicle(response: array<byte>) returns (length: nat)
      requires Wf() && response.Length == MAX_PAYLOAD
      modifies response
      ensures length == 12
      ensures response[..length] == [0x62, 0xf1, 0x00] + StatusFields(View()) + [Checksum(StatusFields(View()))]
    {
      response[0], response[1], response[2] := 0x62, 0xf1, 0x00;
      var active := ActiveCount();
      var stored := StoredCount();
      response[3], response[4] := state % 256, coolant;
      response[5], response[6] := battery / 256 % 256, battery % 256;
      response[7], response[8] := active, stored;
      response[9], response[10] := sequence / 256 % 256, sequence % 256;
      assert response[3..11] == StatusFields(View());
      response[11] := Checksum(response[3..11]);
      length := 12;
      assert response[..3] == [0x62, 0xf1, 0x00] && response[3..11] == StatusFields(View());
      assert response[..12] == response[..3] + response[3..11] + [response[11]];
    }

    method Current(response: array<byte>, pid: byte) returns (length: nat)
      requires Wf() && response.Length == MAX_PAYLOAD
      modifies response
      ensures length <= MAX_PAYLOAD && response[..length] == CurrentData(View(), pid)
    {
      response[0], response[1], response[3], response[4], response[5] := 0x41, pid, 0, 0, 0;
      if pid == 0x00 {
        response[2], response[5], length := 0x88, 0x01, 6;
      } else if pid == 0x20 {
        response[2], response[5], length := 0x00, 0x01, 6;
      } else if pid == 0x40 {
        response[2], length := 0x40, 6;
      } else if pid == 0x01 {
        var active := ActiveCount();
        response[2], length := (if active != 0 then 0x80 + active else 0), 6;
      } else if pid == 0x05 {
        response[2], length := (coolant + 40) % 256, 3;
      } else if pid == 0x42 {
        response[2], response[3], length := battery / 256 % 256, battery % 256, 4;
      } else {
        length := Refuse(response, 0x01, 0x31);
      }
    }

    method Refuse(response: array<byte>, service: byte, error: byte) returns (length: nat)
      requires response.Length == MAX_PAYLOAD
      modifies response
      ensures length == 3 && response[..length] == Negative(service, error)
    {
      response[0], response[1], response[2], length := 0x7f, service, error, 3;
    }

    /** Copies `octets` behind the first `at` octets of the response. */
    method Append(response: array<byte>, at: nat, octets: seq<byte>) returns (length: nat)
      requires response.Length == MAX_PAYLOAD && at + |octets| <= MAX_PAYLOAD
      modifies response
      ensures length == at + |octets| && response[..length] == old(response[..at]) + octets
    {
      forall i | 0 <= i < |octets| {
        response[at + i] := octets[i];
      }
      length := at + |octets|;
    }

    /** Answers one request of 1 to 128 octets. */
    method ProcessRequest(request: Payload) returns (answer: Payload)
      requires Wf() && 1 <= |request| <= MAX_PAYLOAD
      modifies this, dtcs
      ensures View() == Process(old(View()), request).0 && asked == old(asked) + [request]
      ensures answer == Process(old(View()), request).1
    {
      var response := new byte[MAX_PAYLOAD](_ => 0);
      var length;
      var service := request[0];
      if service == 0x10 {
        length := SessionControl(response, request);
      } else if service == 0x22 {
        length := ReadDataById(response, request);
      } else if service == 0x2e {
        length := WriteDataById(response, request);
      } else if service == 0x19 || service == 0x14 || service == 0x03 || service == 0x04 {
        length := FaultServices(response, request);
      } else {
        length := OtherServices(response, request);
      }
      answer := response[..length];
      asked := asked + [request];
    }

    method SessionControl(response: array<byte>, request: Payload) returns (length: nat)
      requires Wf() && response.Length == MAX_PAYLOAD && 1 <= |request| <= MAX_PAYLOAD && request[0] == 0x10
      modifies this, response
      ensures View() == Process(old(View()), request).0 && asked == old(asked)
      ensures length <= MAX_PAYLOAD && response[..length] == Process(old(View()), request).1
    {
      if |request| != 2 || (request[1] != 0x01 && request[1] != 0x03) {
        length := Refuse(response, request[0], 0x12);
        return;
      }
      session := request[1];
      response[0], response[1], response[2], response[3] := 0x50, request[1], 0x00, 0x32;
      response[4], response[5], length := 0x01, 0xf4, 6;
    }

    method ReadDataById(response: array<byte>, request: Payload) returns (length: nat)
      requires Wf() && response.Length == MAX_PAYLOAD && 1 <= |request| <= MAX_PAYLOAD && request[0] == 0x22
      modifies response
      ensures View() == Process(View(), request).0
      ensures length <= MAX_PAYLOAD && response[..length] == Process(View(), request).1
    {
      if |request| != 3 {
        length := Refuse(response, request[0], 0x13);
      } else if request[1] == 0xf1 && request[2] == 0x00 {
        length := ReadVehicle(response);
        assert request == [0x22, 0xf1, 0x00];
      } else if request[1] == 0xf1 && request[2] == 0x90 {
        response[0], response[1], response[2] := 0x62, request[1], request[2];
        length := Append(response, 3, VIN);
        assert request == [0x22, 0xf1, 0x90];
      } else {
        length := Refuse(response, request[0], 0x31);
      }
    }

    method WriteDataById(response: array<byte>, request: Payload) returns (length: nat)
      requires Wf() && response.Length == MAX_PAYLOAD && 1 <= |request| <= MAX_PAYLOAD && request[0] == 0x2e
      modifies this, dtcs, response
      ensures View() == Process(old(View()), request).0 && asked == old(asked)
      ensures length <= MAX_PAYLOAD && response[..length] == Process(old(View()), request).1
    {
      if |request| != 4 || request[1] != 0xf1 || request[2] != 0x00 || request[3] > 2 {
        length := Refuse(response, request[0], 0x31);
        return;
      }
      if session != 0x03 {
        length := Refuse(response, request[0], 0x22);
        return;
      }
      ApplyState(request[3]);
      response[0], response[1], response[2], response[3] := 0x6e, request[1], request[2], request[3];
      length := 4;
    }

    method FaultServices(response: array<byte>, request: Payload) returns (length: nat)
      requires Wf() && response.Length == MAX_PAYLOAD && 1 <= |request| <= MAX_PAYLOAD
      requires request[0] in {0x19, 0x14, 0x03, 0x04}
      modifies this, dtcs, response
      ensures View() == Process(old(View()), request).0 && asked == old(asked)
      ensures length <= MAX_PAYLOAD && response[..length] == Process(old(View()), request).1
    {
      if request[0] == 0x19 {
        if |request| != 3 || request[1] != 0x02 {
          length := Refuse(response, request[0], 0x12);
        } else {
          length := ReportDtcs(response, request[2]);
        }
      } else if request[0] == 0x14 {
        if |request| != 4 || request[1] != 0xff || request[2] != 0xff || request[3] != 0xff {
          length := Refuse(response, request[0], 0x31);
        } else {
          ClearDtcs();
          response[0], length := 0x54, 1;
        }
      } else if |request| != 1 {
        length := Refuse(response, request[0], 0x13);
      } else if request[0] == 0x03 {
        length := ReportObd(response);
      } else {
        ClearDtcs();
        response[0], length := 0x44, 1;
      }
    }

    method OtherServices(response: array<byte>, request: Payload) returns (length: nat)
      requires Wf() && response.Length == MAX_PAYLOAD && 1 <= |request| <= MAX_PAYLOAD
      requires request[0] !in {0x10, 0x22, 0x2e, 0x19, 0x14, 0x03, 0x04}
      modifies response
      ensures View() == Process(View(), request).0
      ensures length <= MAX_PAYLOAD && response[..length] == Process(View(), request).1
    {
      if request[0] == 0x31 {
        if |request| < 4 || request[1] != 0x01 || request[2] != 0xff || request[3] != 0x00 {
          length := Refuse(response, request[0], 0x31);
        } else {
          length := Append(response, 0, request);
          response[0] := 0x71;
          assert response[..length] == [0x71] + request[1..];
        }
      } else if request[0] == 0x3e {
        if |request| != 2 || request[1] % 128 != 0 {
          length := Refuse(response, request[0], 0x12);
        } else {
          response[0], response[1], length := 0x7e, request[1] % 128, 2;
        }
      } else if request[0] == 0x01 {
        if |request| != 2 {
          length := Refuse(response, request[0], 0x13);
        } else {
          length := Current(response, request[1]);
        }
      } else if request[0] == 0x09 {
        if |request| != 2 || request[1] != 0x02 {
          length := Refuse(response, request[0], 0x31);
        } else {
          response[0], response[1], response[2] := 0x49, 0x02, 0x01;
          length := Append(response, 3, VIN);
        }
      } else {
        length := Refuse(response, request[0], 0x11);
      }
    }
  }

  lemma SaeOctets(code: nat)
    ensures code / 256 % 0x1_0000 / 256 == code / 0x1_0000 % 256
    ensures code / 256 % 0x1_0000 % 256 == code / 256 % 256
  {
    var n := code / 256;
    var q, r := n / 0x1_0000, n % 0x1_0000;
    assert n == q * 0x1_0000 + r;
    assert n / 256 == q * 256 + r / 256;
    assert code / 0x1_0000 == n / 256;
  }
}
