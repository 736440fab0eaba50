/** A connection as a stream of octets in each direction.  How many octets a
    call moves, and whether it would block, is scripted. */
module WsStream {
  import opened Bytes
  import opened WsFrames

  function Behind(n: nat, s: seq<byte>): seq<byte> {
    s[Min(n, |s|)..]
  }

  /** `data` stands in `buf` at `at` and everything else is as before. */
  ghost predicate Placed(now: seq<byte>, before: seq<byte>, at: nat, data: seq<byte>) {
    && |now| == |before| && at + |data| <= |now|
    && now[at..at + |data|] == data
    && now[..at] == before[..at] && now[at + |data|..] == before[at + |data|..]
  }

  lemma PlacedTwice(now: seq<byte>, mid: seq<byte>, before: seq<byte>, at: nat, a: seq<byte>, b: seq<byte>)
    requires Placed(mid, before, at, a) && Placed(now, mid, at + |a|, b)
    ensures Placed(now, before, at, a + b)
  {
    assert now[at..at + |a|] == now[..at + |a|][at..] == mid[..at + |a|][at..] == a;
    assert now[at..at + |a + b|] == now[at..at + |a|] + now[at + |a|..at + |a| + |b|];
    assert now[..at] == now[..at + |a|][..at] == mid[..at + |a|][..at] == mid[..at];
    assert mid[at + |a| + |b|..] == mid[at + |a|..][|b|..] == before[at + |a|..][|b|..] == before[at + |a| + |b|..];
  }

  /** Unmasks the first `n` octets in place. */
  method Unmask(buf: array<byte>, n: nat, mask: seq<byte>)
    requires n <= buf.Length && |mask| == 4
    modifies buf
    ensures buf[..n] == Masked(old(buf[..n]), mask) && buf[n..] == old(buf[n..])
  {
    ghost var before := buf[..];
    for i := 0 to n
      invariant buf[..i] == Masked(before[..i], mask)
      invariant buf[i..] == before[i..]
    {
      assert before[..i + 1][..i] == before[..i] && buf[i] == buf[i..][0] == before[i];
      buf[i] := Xor(buf[i], mask[i % 4]);
      assert buf[..i + 1] == buf[..i] + [buf[i]];
      assert buf[i + 1..] == before[i..][1..] == before[i + 1..];
    }
  }

  /** Unmasks the first `n` octets, if there is a mask, and ends the text. */
  method Finish(buf: array<byte>, n: nat, mask: seq<byte>)
    requires n < buf.Length && (|mask| == 0 || |mask| == 4)
    modifies buf
    ensures buf[..n] == Unmasked(old(buf[..n]), mask) && buf[n] == 0
  {
    if mask != [] {
      Unmask(buf, n, mask);
    }
    ghost var payload := buf[..n];
    buf[n] := 0;
    assert buf[..n] == payload;
  }

  /** `credits` is how many octets the connection still takes before it fails. */
  class Stream {
    var incoming: seq<byte>
    var outgoing: seq<byte>
    var readSizes: seq<nat>
    var writeSizes: seq<nat>
    var credits: nat

    constructor (incoming: seq<byte>, readSizes: seq<nat>, writeSizes: seq<nat>, credits: nat)
      ensures this.incoming == incoming && outgoing == []
      ensures this.readSizes == readSizes && this.writeSizes == writeSizes
      ensures this.credits == credits
    {
      this.incoming, outgoing := incoming, [];
      this.readSizes, this.writeSizes, this.credits := readSizes, writeSizes, credits;
    }

    /** One read of at most `max` octets: it may block, it may be short, and it
        gives nothing only at the end. */
    method Read(buf: array<byte>, at: nat, max: nat) returns (blocked: bool, n: nat)
      requires 0 < max && at + max <= buf.Length
      modifies this`incoming, this`readSizes, buf
      ensures blocked <==> old(readSizes) != [] && old(readSizes)[0] == 0
      ensures blocked ==> n == 0 && |readSizes| < |old(readSizes)|
      ensures !blocked ==> (n == 0 <==> old(incoming) == [])
      ensures |readSizes| <= |old(readSizes)| && n <= max && n <= |old(incoming)|
      ensures Placed(buf[..], old(buf[..]), at, old(incoming)[..n]) && incoming == old(incoming)[n..]
    {
      blocked, n := false, max;
      if readSizes != [] {
        blocked, n := readSizes[0] == 0, Min(readSizes[0], max);
        readSizes := readSizes[1..];
      }
      n := Min(n, |incoming|);
      forall i | 0 <= i < n {
        buf[at + i] := incoming[i];
      }
      incoming := incoming[n..];
    }

    /** One write: it may block, it may be short, and it fails once the
        connection has. */
    method Write(data: seq<byte>) returns (blocked: bool, n: int)
      requires data != []
      modifies this`outgoing, this`writeSizes, this`credits
      ensures blocked <==> old(writeSizes) != [] && old(writeSizes)[0] == 0
      ensures blocked ==> n == 0 && |writeSizes| < |old(writeSizes)|
      ensures old(writeSizes) == [] ==> writeSizes == [] && (|data| <= old(credits) ==> n == |data|)
      ensures !blocked ==> (n < 0 <==> old(credits) == 0) && n != 0
      ensures |writeSizes| <= |old(writeSizes)| && n <= |data| && n <= old(credits)
      ensures n >= 0 ==> outgoing == old(outgoing) + data[..n] && credits == old(credits) - n
      ensures n < 0 ==> outgoing == old(outgoing) && credits == old(credits)
    {
      blocked, n := false, |data|;
      if writeSizes != [] {
        blocked, n := writeSizes[0] == 0, Min(writeSizes[0], |data|);
        writeSizes := writeSizes[1..];
      }
      if !blocked && credits == 0 {
        return false, -1;
      }
      n := Min(n, credits);
      outgoing, credits := outgoing + data[..n], credits - n;
    }

    /** A blocking receive: it may be short, and it gives nothing only at the end. */
    method Recv(buf: array<byte>, at: nat, max: nat) returns (n: nat)
      requires 0 < max && at + max <= buf.Length
      modifies this`incoming, this`readSizes, buf
      ensures (n == 0 <==> old(incoming) == []) && n <= max && n <= |old(incoming)|
      ensures Placed(buf[..], old(buf[..]), at, old(incoming)[..n]) && incoming == old(incoming)[n..]
    {
      if readSizes != [] && readSizes[0] == 0 {
        readSizes := [1] + readSizes[1..];
      }
      var blocked;
      blocked, n := Read(buf, at, max);
    }

    /** A blocking send: a short one is not repeated. */
    method Send(data: seq<byte>) returns (n: int)
      modifies this`outgoing, this`writeSizes, this`credits
      ensures n <= |data|
      ensures n >= 0 ==> outgoing == old(outgoing) + data[..n] && credits == old(credits) - n
      ensures n < 0 ==> outgoing == old(outgoing)
      ensures old(writeSizes) == [] && |data| <= old(credits) ==> n == |data| && writeSizes == []
    {
      if data == [] {
        return 0;
      }
      var blocked;
      blocked, n := Write(data);
    }

    /** Reads until `length` octets are there or the stream ends. */
    method ReadExact(buf: array<byte>, length: nat) returns (ok: bool)
      requires length <= buf.Length
      modifies this`incoming, this`readSizes, buf
      ensures ok <==> length <= |old(incoming)|
      ensures incoming == Behind(length, old(incoming))
      ensures ok ==> Placed(buf[..], old(buf[..]), 0, old(incoming)[..length])
    {
      var total := 0;
      ghost var before, all := buf[..], incoming;
      while total < length
        invariant 0 <= total <= length && total <= |all| && incoming == all[total..]
        invariant Placed(buf[..], before, 0, all[..total])
        decreases length - total, |readSizes|
      {
        ghost var mid := buf[..];
        var blocked, n := Read(buf, total, length - total);
        PlacedTwice(buf[..], mid, before, 0, all[..total], all[total..][..n]);
        assert all[..total] + all[total..][..n] == all[..total + n];
        if !blocked && n == 0 {
          return false;
        }
        total := total + n;
      }
      ok := true;
    }

    /** The next `n` octets, for the fields of a header. */
    method ReadOctets(n: nat) returns (ok: bool, data: seq<byte>)
      modifies this`incoming, this`readSizes
      ensures ok <==> n <= |old(incoming)|
      ensures incoming == Behind(n, old(incoming))
      ensures ok ==> data == old(incoming)[..n]
    {
      var buf := new byte[n];
      ok := ReadExact(buf, n);
      data := buf[..];
    }

    /** Writes until everything is out or the connection fails; what is out is in
        either case the beginning of `data`. */
    method WriteAll(data: seq<byte>) returns (ok: bool)
      modifies this`outgoing, this`writeSizes, this`credits
      ensures ok <==> |data| <= old(credits)
      ensures outgoing == old(outgoing) + data[..Min(|data|, old(credits))]
      ensures credits == old(credits) - Min(|data|, old(credits))
    {
      var written := 0;
      while written < |data|
        invariant 0 <= written <= |data| && written <= old(credits)
        invariant outgoing == old(outgoing) + data[..written] && credits == old(credits) - written
        decreases |data| - written, |writeSizes|
      {
        var blocked, n := Write(data[written..]);
        if !blocked && n < 0 {
          return false;
        }
        assert data[..written] + data[written..][..n] == data[..written + n];
        written := written + n;
      }
      ok := true;
    }
  }
}
