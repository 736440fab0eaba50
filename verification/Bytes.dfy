/** Octets as integers, the bitwise operations the sources use on them, and
    the handful of sequence facts that several modules share. */
module Bytes {
  type byte = x: int | 0 <= x < 256

  /** The octets of a request or response, at most `MAX_PAYLOAD` on the bus. */
  type Payload = seq<byte>

  const MAX_PAYLOAD := 128

  /** The word of two octets, the high one first. */
  function Word(high: nat, low: nat): (w: nat)
    ensures high < 256 && low < 256 ==> w < 0x1_0000
  {
    high * 256 + low
  }

  function Pow2(n: nat): (r: nat)
    ensures r > 0
  {
    if n == 0 then 1 else 2 * Pow2(n - 1)
  }

  /** The exclusive or of the low `n` bits of `a` and `b`. */
  function XorBits(a: nat, b: nat, n: nat): (r: nat)
    ensures r < Pow2(n)
  {
    if n == 0 then 0 else (if a % 2 == b % 2 then 0 else 1) + 2 * XorBits(a / 2, b / 2, n - 1)
  }

  lemma {:induction false} XorBitsInvolution(a: nat, m: nat, n: nat)
    requires a < Pow2(n)
    ensures XorBits(XorBits(a, m, n), m, n) == a
  {
    if n == 0 {
    } else {
      XorBitsInvolution(a / 2, m / 2, n - 1);
      var x := XorBits(a, m, n);
      assert x / 2 == XorBits(a / 2, m / 2, n - 1) && (x % 2 == 0 <==> a % 2 == m % 2);
    }
  }

  lemma Pow2Of8()
    ensures Pow2(8) == 256
  {
    assert Pow2(4) == 16;
  }

  function Xor(a: byte, b: byte): byte {
    Pow2Of8();
    XorBits(a, b, 8)
  }

  /** Masking with the same octet twice gives the octet back. */
  lemma XorTwice(a: byte, m: byte)
    ensures Xor(Xor(a, m), m) == a
  {
    Pow2Of8();
    XorBitsInvolution(a, m, 8);
  }

  /** The bitwise and of the low `n` bits of `a` and `b`. */
  function AndBits(a: nat, b: nat, n: nat): (r: nat)
    ensures r <= a
  {
    if n == 0 then 0
    else (if a % 2 == 1 && b % 2 == 1 then 1 else 0) + 2 * AndBits(a / 2, b / 2, n - 1)
  }

  function And(a: byte, b: byte): byte {
    AndBits(a, b, 8)
  }

  /** A mask of all ones keeps the octet. */
  lemma {:induction false} AndBitsOnes(a: nat, n: nat)
    requires a < Pow2(n)
    ensures AndBits(a, Pow2(n) - 1, n) == a
  {
    if n == 0 {
    } else {
      assert (Pow2(n) - 1) / 2 == Pow2(n - 1) - 1;
      AndBitsOnes(a / 2, n - 1);
    }
  }

  lemma AndAll(a: byte)
    ensures And(a, 255) == a
  {
    Pow2Of8();
    AndBitsOnes(a, 8);
  }

  // ---- Bit by bit ----------------------------------------------------------

  /** Bit `i` of `n`, counted from the least significant. */
  function Bit(n: nat, i: nat): nat {
    if i == 0 then n % 2 else Bit(n / 2, i - 1)
  }

  /** A bit of the exclusive or is set exactly if the bits differ. */
  lemma {:induction false} XorBitwise(a: nat, b: nat, n: nat, i: nat)
    requires i < n
    ensures Bit(XorBits(a, b, n), i) == if Bit(a, i) == Bit(b, i) then 0 else 1
  {
    var x := XorBits(a, b, n);
    assert x % 2 == (if a % 2 == b % 2 then 0 else 1) && x / 2 == XorBits(a / 2, b / 2, n - 1);
    if i > 0 {
      XorBitwise(a / 2, b / 2, n - 1, i - 1);
    }
  }

  /** A bit of the and is set exactly if both bits are. */
  lemma {:induction false} AndBitwise(a: nat, b: nat, n: nat, i: nat)
    requires i < n
    ensures Bit(AndBits(a, b, n), i) == if Bit(a, i) == 1 && Bit(b, i) == 1 then 1 else 0
  {
    var x := AndBits(a, b, n);
    assert x % 2 == (if a % 2 == 1 && b % 2 == 1 then 1 else 0) && x / 2 == AndBits(a / 2, b / 2, n - 1);
    if i > 0 {
      AndBitwise(a / 2, b / 2, n - 1, i - 1);
    }
  }

  lemma BitBelow(n: nat, i: nat)
    ensures Bit(n, i) < 2
  {
    if i > 0 {
      BitBelow(n / 2, i - 1);
    }
  }

  /** Two numbers of `n` bits with the same bits are equal. */
  lemma {:induction false} SameBits(a: nat, b: nat, n: nat)
    requires a < Pow2(n) && b < Pow2(n) && forall i :: 0 <= i < n ==> Bit(a, i) == Bit(b, i)
    ensures a == b
  {
    if n > 0 {
      assert Bit(a, 0) == Bit(b, 0);
      forall i | 0 <= i < n - 1 ensures Bit(a / 2, i) == Bit(b / 2, i) {
        assert Bit(a, i + 1) == Bit(b, i + 1);
      }
      SameBits(a / 2, b / 2, n - 1);
    }
  }

  lemma {:induction false} AllBitsSet(n: nat, i: nat)
    ensures Bit(Pow2(n) - 1, i) == if i < n then 1 else 0
    decreases n, i
  {
    if n == 0 {
      ZeroBits(i);
    } else {
      assert (Pow2(n) - 1) % 2 == 1 && (Pow2(n) - 1) / 2 == Pow2(n - 1) - 1;
      if i > 0 {
        AllBitsSet(n - 1, i - 1);
      }
    }
  }

  lemma {:induction false} ZeroBits(i: nat)
    ensures Bit(0, i) == 0
  {
    if i > 0 {
      ZeroBits(i - 1);
    }
  }

  /** The low `n` bits of `a` and `b` are the same wherever `m` has a bit set. */
  predicate AgreeOn(a: nat, b: nat, m: nat, n: nat) {
    forall i :: 0 <= i < n && Bit(m, i) == 1 ==> Bit(a, i) == Bit(b, i)
  }

  /** Two numbers are equal under a mask exactly if they agree on its set bits. */
  lemma MaskedEqual(a: nat, b: nat, m: nat, n: nat)
    ensures AndBits(a, m, n) == AndBits(b, m, n) <==> AgreeOn(a, b, m, n)
  {
    if AndBits(a, m, n) == AndBits(b, m, n) {
      forall i | 0 <= i < n && Bit(m, i) == 1 ensures Bit(a, i) == Bit(b, i) {
        AndBitwise(a, m, n, i);
        AndBitwise(b, m, n, i);
        BitBelow(a, i);
        BitBelow(b, i);
      }
    } else if AgreeOn(a, b, m, n) {
      AndBelow(a, m, n);
      AndBelow(b, m, n);
      forall i | 0 <= i < n ensures Bit(AndBits(a, m, n), i) == Bit(AndBits(b, m, n), i) {
        AndBitwise(a, m, n, i);
        AndBitwise(b, m, n, i);
      }
      SameBits(AndBits(a, m, n), AndBits(b, m, n), n);
    }
  }

  lemma {:induction false} AndBelow(a: nat, m: nat, n: nat)
    ensures AndBits(a, m, n) < Pow2(n)
  {
    if n > 0 {
      AndBelow(a / 2, m / 2, n - 1);
    }
  }

  function Min(a: nat, b: nat): nat {
    if a <= b then a else b
  }
}
