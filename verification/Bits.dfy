/** Powers, powers of two, and the bits of a little-endian byte string. */
module Bits {
  import opened Words
  import opened NatLemmas

  function Pow2(n: nat): (p: nat)
    ensures p >= 1
  {
    if n == 0 then 1 else 2 * Pow2(n - 1)
  }

  /** b to the power e. */
  function Pow(b: nat, e: nat): nat
  {
    if e == 0 then 1 else b * Pow(b, e - 1)
  }

  lemma {:induction false} PowDouble(b: nat, e: nat)
    ensures Pow(b, 2 * e) == Pow(b, e) * Pow(b, e)
  {
    if e > 0 {
      PowDouble(b, e - 1);
      PowDoubleAlg(b, Pow(b, e - 1), Pow(b, e), Pow(b, 2 * e - 2), Pow(b, 2 * e - 1), Pow(b, 2 * e));
    }
  }

  lemma PowDoubleAlg(b: int, p: int, p1: int, q: int, q1: int, q2: int)
    requires q == p * p && p1 == b * p && q1 == b * q && q2 == b * q1
    ensures q2 == p1 * p1
  {
    calc { q2; b * (b * (p * p)); (b * p) * (b * p); }
  }

  /** x >> k. */
  function Shr(x: nat, k: nat): nat
    decreases k
  {
    if k == 0 then x else Shr(x / 2, k - 1)
  }

  lemma {:induction false} ShrIsDiv(x: nat, k: nat)
    ensures Shr(x, k) == x / Pow2(k)
    decreases k
  {
    if k > 0 {
      ShrIsDiv(x / 2, k - 1);
      DivDiv(x, Pow2(k - 1));
    }
  }

  lemma DivDiv(x: int, p: int)
    requires 0 < p
    ensures x / 2 / p == x / (2 * p)
  {
    var q, m := x / 2 / p, x / 2 % p;
    assert x / 2 == p * q + m;
    MulAssoc(2, p, q);
    DivModUnique(x, 2 * p, q, 2 * m + x % 2);
  }

  /** scalar_bit: bit i of the bytes s, and 0 below position 0. */
  function ScalarBit(s: seq<u8>, i: int): (b: nat)
    requires i < 8 * |s|
    ensures b <= 1
  {
    if i < 0 then 0 else Shr(s[i / 8], i % 8) % 2
  }

  /** The bits of s from position i up, as a number. */
  function TopBits(s: seq<u8>, i: nat): nat
  {
    DivNonNeg(BytesVal(s), Pow2(i));
    BytesVal(s) / Pow2(i)
  }

  lemma Pow2Values()
    ensures Pow2(0) == 1 && Pow2(1) == 2 && Pow2(2) == 4 && Pow2(3) == 8
    ensures Pow2(4) == 16 && Pow2(5) == 32 && Pow2(6) == 64 && Pow2(7) == 128 && Pow2(8) == 256
  {
  }

  lemma {:induction false} Pow2Split(m: nat, n: nat)
    ensures Pow2(m + n) == Pow2(m) * Pow2(n)
  {
    if m > 0 { Pow2Split(m - 1, n); MulAssoc(2, Pow2(m - 1), Pow2(n)); }
  }

  lemma {:induction false} Pow2Weight(n: nat)
    ensures Pow2(32 * n) == Weight(n)
  {
    if n > 0 {
      Pow2Weight(n - 1);
      Pow2Split(32, 32 * (n - 1));
      Pow2Split(16, 16);
      Pow2Split(8, 8);
      Pow2Values();
    }
  }

  /** Bit i is what TopBits gains when it moves down to position i. */
  lemma {:induction false} TopBitsStep(s: seq<u8>, i: nat)
    requires i < 8 * |s|
    ensures TopBits(s, i) == 2 * TopBits(s, i + 1) + ScalarBit(s, i)
  {
    if i >= 8 {
      TopBitsStep(s[1..], i - 8);
      TopBitsShift(s, i);
      TopBitsShift(s, i + 1);
      assert s[1..][(i - 8) / 8] == s[i / 8];
    } else {
      LowBits(s[0], BytesVal(s[1..]), i);
      ShrIsDiv(s[0], i);
    }
  }

  lemma TopBitsShift(s: seq<u8>, i: nat)
    requires s != [] && i >= 8
    ensures TopBits(s, i) == TopBits(s[1..], i - 8)
  {
    Pow2Split(8, i - 8);
    Pow2Values();
    ShiftAlg(s[0], BytesVal(s[1..]), Pow2(i - 8), Pow2(i), BytesVal(s));
  }

  lemma ShiftAlg(b: u8, r: int, p: int, p8: int, v: int)
    requires 0 < p && p8 == 0x100 * p && v == b + 0x100 * r
    ensures v / p8 == r / p
  {
    var q, m := r / p, r % p;
    assert r == p * q + m;
    MulAssoc(0x100, p, q);
    DivModUnique(v, p8, q, 0x100 * m + b);
  }

  lemma DivHalf(b: int, p: int)
    requires 0 < p
    ensures b / (2 * p) == b / p / 2
  {
    var q, m := b / p, b % p;
    assert b == p * q + m;
    MulAssoc(p, 2, q / 2);
    MulAdd(p, 2 * (q / 2), q % 2);
    MulMono(p, q % 2, p, 1);
    DivModUnique(b, 2 * p, q / 2, p * (q % 2) + m);
  }

  lemma DivAddMul(b: int, p: int, k: int)
    requires 0 < p
    ensures (b + p * k) / p == b / p + k
  {
    MulAdd(p, b / p, k);
    DivModUnique(b + p * k, p, b / p + k, b % p);
  }

  lemma LowBits(b: u8, rest: nat, i: nat)
    requires i < 8
    ensures (b + 0x100 * rest) / Pow2(i) == 2 * ((b + 0x100 * rest) / Pow2(i + 1)) + b / Pow2(i) % 2
  {
    Pow2Split(i, 8 - i);
    Pow2Values();
    LowBitsAlg(b, rest, Pow2(i), Pow2(7 - i));
  }

  lemma LowBitsAlg(b: int, rest: int, p: int, k: int)
    requires 0 < p && p * (2 * k) == 0x100
    ensures (b + 0x100 * rest) / p == 2 * ((b + 0x100 * rest) / (2 * p)) + b / p % 2
  {
    var v, m := b + 0x100 * rest, k * rest;
    assert 0x100 * rest == p * (2 * m) by {
      MulAssoc(p, 2 * k, rest);
      MulAssoc(2, k, rest);
    }
    DivAddMul(b, p, 2 * m);
    DivHalf(v, p);
    Parity(v / p, b / p, m);
  }

  lemma Parity(q: int, x: int, m: int)
    requires q == x + 2 * m
    ensures q == 2 * (q / 2) + x % 2
  {
  }
}
