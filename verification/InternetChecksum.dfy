/** The Internet checksum of the Ethernet driver and the ICMP echo frame built
    with it. */
module InternetChecksum {
  import opened Bytes

  // ---- One's-complement arithmetic -----------------------------------------

  type word = x: int | 0 <= x < 0x1_0000

  /** The sum of the big-endian words; an odd last octet is a word's upper half. */
  function WordSum(s: seq<byte>): (r: nat)
    ensures r <= 0xffff * |s|
  {
    if s == [] then 0
    else if |s| == 1 then Word(s[0], 0)
    else Word(s[0], s[1]) + WordSum(s[2..])
  }

  /** Addition with end-around carry. */
  function Plus(a: word, b: word): word {
    if a + b > 0xffff then a + b - 0xffff else a + b
  }

  /** The one's-complement sum, word by word. */
  function OnesSum(s: seq<byte>): word {
    if s == [] then 0
    else if |s| == 1 then Word(s[0], 0)
    else Plus(Word(s[0], s[1]), OnesSum(s[2..]))
  }

  function Checksum(s: seq<byte>): word { 0xffff - OnesSum(s) }

  /** What repeated folding of carries leaves of a sum. */
  function Fold(n: nat): (r: word)
    ensures r == 0 <==> n == 0
    ensures r % 0xffff == n % 0xffff
  {
    if n == 0 then 0 else if n % 0xffff == 0 then 0xffff else n % 0xffff
  }

  lemma FoldKeeps(n: nat)
    ensures Fold(n % 0x1_0000 + n / 0x1_0000) == Fold(n)
  {
    var q, r := n / 0x1_0000, n % 0x1_0000;
    assert n == (r + q) + q * 0xffff;
    MultipleVanishes(r + q, q);
  }

  lemma {:induction false} MultipleVanishes(a: nat, k: nat)
    ensures (a + k * 0xffff) % 0xffff == a % 0xffff
    decreases k
  {
    if k > 0 {
      MultipleVanishes(a, k - 1);
      assert (a + (k - 1) * 0xffff + 0xffff) % 0xffff == (a + (k - 1) * 0xffff) % 0xffff;
    }
  }

  lemma FoldOfWord(w: word)
    ensures Fold(w) == w
  {
  }

  lemma FoldAdds(w: word, n: nat)
    ensures Fold(w + n) == Plus(w, Fold(n))
  {
    var r := Fold(n);
    assert (w + n) % 0xffff == (w + r) % 0xffff by {
      MultipleVanishes(w + n % 0xffff, n / 0xffff);
      MultipleVanishes(w + r % 0xffff, r / 0xffff);
    }
  }

  /** Adding first and folding the carries in at the end is the same as
      carrying around at every word. */
  lemma {:induction false} FoldIsOnesSum(s: seq<byte>)
    ensures Fold(WordSum(s)) == OnesSum(s)
  {
    if |s| == 1 {
      FoldOfWord(Word(s[0], 0));
    } else if s != [] {
      FoldIsOnesSum(s[2..]);
      FoldAdds(Word(s[0], s[1]), WordSum(s[2..]));
    }
  }

  /** A block of 65535 octets still adds up below 2^32. */
  lemma {:induction false} SumFits(s: seq<byte>)
    ensures WordSum(s) <= (|s| + 1) / 2 * 0xffff
  {
    if |s| >= 2 {
      SumFits(s[2..]);
    }
  }

  /** The example of RFC 1071, section 3: the octets 00 01 f2 03 f4 f5 f6 f7 have the
      sum ddf2. */
  lemma PublishedExample()
    ensures OnesSum([0x00, 0x01, 0xf2, 0x03, 0xf4, 0xf5, 0xf6, 0xf7]) == 0xddf2
    ensures Checksum([0x00, 0x01, 0xf2, 0x03, 0xf4, 0xf5, 0xf6, 0xf7]) == 0x220d
  {
    var s: seq<byte> := [0x00, 0x01, 0xf2, 0x03, 0xf4, 0xf5, 0xf6, 0xf7];
    assert s[2..] == [0xf2, 0x03, 0xf4, 0xf5, 0xf6, 0xf7] && s[2..][2..] == [0xf4, 0xf5, 0xf6, 0xf7];
    assert s[2..][2..][2..] == [0xf6, 0xf7] && s[2..][2..][2..][2..] == [];
    assert OnesSum(s[2..][2..][2..]) == 0xf6f7;
    assert OnesSum(s[2..][2..]) == 0xebed;
    assert OnesSum(s[2..]) == 0xddf1;
  }

  /** A block of odd length counts as if a zero followed it. */
  lemma {:induction false} OddLengthIsPadded(s: seq<byte>)
    requires |s| % 2 == 1
    ensures OnesSum(s) == OnesSum(s + [0])
  {
    var t := s + [0];
    if |s| == 1 {
      assert t[2..] == [];
    } else {
      assert t[2..] == s[2..] + [0];
      OddLengthIsPadded(s[2..]);
    }
  }

  // ---- The field in a block ------------------------------------------------

  function WithWord(s: seq<byte>, at: nat, w: word): (r: seq<byte>)
    requires at + 2 <= |s|
    ensures |r| == |s|
  {
    s[at := w / 256][at + 1 := w % 256]
  }

  lemma {:induction false} WordSumWith(s: seq<byte>, at: nat, w: word)
    requires at % 2 == 0 && at + 2 <= |s|
    ensures WordSum(WithWord(s, at, w)) == WordSum(s) - Word(s[at], s[at + 1]) + w
    decreases |s|
  {
    var r := WithWord(s, at, w);
    if at == 0 {
      assert r[2..] == s[2..];
    } else {
      assert r[2..] == WithWord(s[2..], at - 2, w);
      WordSumWith(s[2..], at - 2, w);
    }
  }

  /** Storing the checksum of a block into its own zeroed field makes the block
      sum to zero. */
  lemma ChecksumVerifies(s: seq<byte>, at: nat)
    requires at % 2 == 0 && at + 2 <= |s| && s[at] == 0 && s[at + 1] == 0
    ensures Checksum(WithWord(s, at, Checksum(s))) == 0
  {
    var sum, c := WordSum(s), Checksum(s);
    WordSumWith(s, at, c);
    FoldIsOnesSum(s);
    FoldIsOnesSum(WithWord(s, at, c));
    FoldAdds(c, sum);
  }

  /** A verifying block no longer verifies after one word changes, except where
      the change is between the two representations of zero. */
  lemma SingleChangeIsSeen(s: seq<byte>, at: nat, w: word)
    requires at % 2 == 0 && at + 2 <= |s| && Checksum(s) == 0
    ensures
      var was := Word(s[at], s[at + 1]);
      Checksum(WithWord(s, at, w)) == 0 <==>
        w == was || (w + was == 0xffff && (w == 0 || was == 0) && WordSum(WithWord(s, at, w)) > 0)
  {
    var was := Word(s[at], s[at + 1]);
    var others := WordSum(s) - was;
    WordSumWith(s, at, w);
    WordSumWith(s, at, 0);
    FoldIsOnesSum(s);
    FoldIsOnesSum(WithWord(s, at, w));
    FoldAdds(was, others);
    FoldAdds(w, others);
  }

  // ---- The driver ----------------------------------------------------------

  /** The checksum of `length` octets from `start` on. */
  method ComputeChecksum(data: array<byte>, start: nat, length: nat) returns (checksum: word)
    requires start + length <= data.Length && length <= 0xffff
    ensures checksum == Checksum(data[start..start + length])
    ensures WordSum(data[start..start + length]) < 0x1_0000_0000
  {
    ghost var block := data[start..start + length];
    var sum: nat := 0;
    var index := 0;
    SumFits(block);
    while index + 1 < length
      invariant 0 <= index <= length && sum + WordSum(block[index..]) == WordSum(block)
      invariant sum < 0x1_0000_0000
    {
      assert block[index..][2..] == block[index + 2..];
      sum := sum + Word(data[start + index], data[start + index + 1]);
      index := index + 2;
    }
    if index < length {
      sum := sum + Word(data[start + index], 0);
    }
    FoldIsOnesSum(block);
    while sum / 0x1_0000 != 0
      invariant Fold(sum) == Fold(WordSum(block))
      decreases sum
    {
      FoldKeeps(sum);
      sum := sum % 0x1_0000 + sum / 0x1_0000;
    }
    FoldOfWord(sum);
    checksum := 0xffff - sum;
  }

  /** "OK8MPM7!" */
  const ECHO_PAYLOAD: seq<byte> := [79, 75, 56, 77, 80, 77, 55, 33]

  /** Clears the frame and writes the Ethernet header. */
  method BuildEthernet(frame: array<byte>, mac: seq<byte>, targetMac: seq<byte>)
    requires frame.Length >= 60 && |mac| == |targetMac| == 6
    modifies frame
    ensures frame[..14] == targetMac + mac + [0x08, 0x00]
    ensures forall k :: 14 <= k < 60 ==> frame[k] == 0
    ensures frame[60..] == old(frame[60..])
  {
    for index := 0 to 60
      invariant forall k :: 0 <= k < index ==> frame[k] == 0
      invariant frame[60..] == old(frame[60..])
    {
      frame[index] := 0;
    }
    for index := 0 to 6
      invariant forall k :: 0 <= k < index ==> frame[k] == targetMac[k] && frame[6 + k] == mac[k]
      invariant forall k :: 12 <= k < 60 ==> frame[k] == 0
      invariant frame[60..] == old(frame[60..])
    {
      frame[index] := targetMac[index];
      frame[6 + index] := mac[index];
    }
    frame[12] := 0x08;
    frame[13] := 0x00;
  }

  /** The fixed fields, with the checksum still zero. */
  method StartIpv4(frame: array<byte>)
    requires frame.Length >= 60
    modifies frame
    ensures frame[14..24] == [0x45, 0, 0, 36, 0x4d, 0x37, 0x40, 0, 64, 1] && frame[24] == 0 && frame[25] == 0
    ensures frame[..14] == old(frame[..14]) && frame[26..] == old(frame[26..])
  {
    frame[14], frame[15], frame[16], frame[17], frame[18] := 0x45, 0x00, 0x00, 20 + 8 + 8, 0x4d;
    frame[19], frame[20], frame[21], frame[22], frame[23] := 0x37, 0x40, 0x00, 64, 1;
    frame[24], frame[25] := 0, 0;
  }

  method BuildIpv4(frame: array<byte>, source: seq<byte>, target: seq<byte>)
    requires frame.Length >= 60 && |source| == |target| == 4
    modifies frame
    ensures Checksum(frame[14..34]) == 0
    ensures frame[14..24] == [0x45, 0, 0, 36, 0x4d, 0x37, 0x40, 0, 64, 1] && frame[26..34] == source + target
    ensures frame[..14] == old(frame[..14]) && frame[34..] == old(frame[34..])
  {
    StartIpv4(frame);
    ghost var started := frame[..];
    assert old(frame[34..]) == old(frame[26..])[8..] == started[26..][8..];
    for index := 0 to 4
      invariant forall k :: 0 <= k < index ==> frame[26 + k] == source[k] && frame[30 + k] == target[k]
      invariant forall k :: 0 <= k < frame.Length && !(26 <= k < 34) ==> frame[k] == started[k]
    {
      frame[26 + index] := source[index];
      frame[30 + index] := target[index];
    }
    FillChecksum(frame, 14, 20, 10);
    assert frame[..14] == started[..14] && frame[14..24] == started[14..24] && frame[34..] == started[26..][8..];
  }

  /** The message, with the checksum still zero. */
  method StartIcmp(frame: array<byte>)
    requires frame.Length >= 60
    modifies frame
    ensures frame[34..42] == [8, 0, 0, 0, 0x4d, 0x37, 0, 1] && frame[42..50] == [79, 75, 56, 77, 80, 77, 55, 33]
    ensures frame[..34] == old(frame[..34]) && frame[50..] == old(frame[50..])
  {
    frame[34], frame[35], frame[36], frame[37] := 8, 0, 0, 0;
    frame[38], frame[39], frame[40], frame[41] := 0x4d, 0x37, 0, 1;
    ghost var before := frame[..42];
    for index := 0 to 8
      invariant frame[..42] == before && frame[50..] == old(frame[50..])
      invariant frame[42..42 + index] == ECHO_PAYLOAD[..index]
    {
      frame[42 + index] := ECHO_PAYLOAD[index];
      assert frame[42..42 + index + 1] == frame[42..42 + index] + [ECHO_PAYLOAD[index]];
    }
    assert frame[..34] == before[..34] && frame[34..42] == before[34..];
  }

  method BuildIcmp(frame: array<byte>)
    requires frame.Length >= 60
    modifies frame
    ensures Checksum(frame[34..50]) == 0
    ensures frame[34..36] == [8, 0] && frame[38..42] == [0x4d, 0x37, 0, 1]
    ensures frame[42..50] == [79, 75, 56, 77, 80, 77, 55, 33]
    ensures frame[..34] == old(frame[..34]) && frame[50..] == old(frame[50..])
  {
    StartIcmp(frame);
    ghost var started := frame[..];
    assert started[36] == started[34..42][2] && started[37] == started[34..42][3];
    FillChecksum(frame, 34, 16, 2);
    assert frame[..34] == started[..34] && frame[50..] == started[50..] && frame[42..50] == started[42..50];
    assert frame[34..36] == started[34..36] == started[34..42][..2];
    assert frame[38..42] == started[38..42] == started[34..42][4..];
  }

  /** An echo request that every receiver's IPv4 and ICMP checks accept,
      whatever the addresses. */
  method BuildIcmpEcho(frame: array<byte>, mac: seq<byte>, targetMac: seq<byte>, source: seq<byte>, target: seq<byte>)
    requires frame.Length >= 60 && |mac| == |targetMac| == 6 && |source| == |target| == 4
    modifies frame
    ensures Checksum(frame[14..34]) == 0 && Checksum(frame[34..50]) == 0
    ensures frame[..14] == targetMac + mac + [0x08, 0x00]
    ensures frame[14..24] == [0x45, 0, 0, 36, 0x4d, 0x37, 0x40, 0, 64, 1] && frame[26..34] == source + target
    ensures frame[34..36] == [8, 0] && frame[38..42] == [0x4d, 0x37, 0, 1]
    ensures frame[42..50] == [79, 75, 56, 77, 80, 77, 55, 33]
    ensures (forall k :: 50 <= k < 60 ==> frame[k] == 0) && frame[60..] == old(frame[60..])
  {
    BuildEthernet(frame, mac, targetMac);
    ghost var ethernet := frame[..];
    BuildIpv4(frame, source, target);
    ghost var ipv4 := frame[..];
    assert ipv4[34..][26..] == ipv4[60..] && ethernet[34..][26..] == ethernet[60..];
    BuildIcmp(frame);
    ghost var icmp := frame[..];
    assert icmp[..34][..14] == icmp[..14] && ipv4[..34][..14] == ipv4[..14];
    assert icmp[..34][14..34] == icmp[14..34] && ipv4[..34][14..34] == ipv4[14..34];
    assert icmp[..34][14..24] == icmp[14..24] && ipv4[..34][14..24] == ipv4[14..24];
    assert icmp[..34][26..34] == icmp[26..34] && ipv4[..34][26..34] == ipv4[26..34];
    assert icmp[50..][10..] == icmp[60..] && ipv4[50..][10..] == ipv4[60..];
    forall k | 50 <= k < 60 ensures frame[k] == 0 {
      assert icmp[k] == icmp[50..][k - 50] == ipv4[k] == ipv4[34..][k - 34] == ethernet[k];
    }
  }

  /** Stores the checksum of a block into the block's zeroed field. */
  method FillChecksum(frame: array<byte>, start: nat, length: nat, field: nat)
    requires start + length <= frame.Length && length <= 0xffff && field % 2 == 0 && field + 2 <= length
    requires frame[start + field] == 0 && frame[start + field + 1] == 0
    modifies frame
    ensures Checksum(frame[start..start + length]) == 0
    ensures forall k :: 0 <= k < frame.Length && k != start + field && k != start + field + 1 ==>
              frame[k] == old(frame[k])
  {
    ghost var block := frame[start..start + length];
    ChecksumVerifies(block, field);
    var checksum := ComputeChecksum(frame, start, length);
    frame[start + field] := checksum / 256;
    frame[start + field + 1] := checksum % 256;
    assert frame[start..start + length] == WithWord(block, field, checksum);
  }
}
