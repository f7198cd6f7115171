/** Bitwise operators on natural numbers. */
module Bitwise {
  import opened Words
  import opened Bits
  import opened NatLemmas

  function And(a: nat, b: nat): (r: nat)
    ensures r <= b
  {
    if a == 0 || b == 0 then 0 else 2 * And(a / 2, b / 2) + (a % 2) * (b % 2)
  }

  /** For a power of two, the mask takes the remainder. */
  lemma {:induction false} MaskIsMod(a: nat, k: nat)
    ensures And(a, Pow2(k) - 1) == a % Pow2(k)
  {
    hide And, Pow2;
    if k == 0 {
      MaskNone(a);
    } else if a == 0 {
      MaskZero(Pow2(k));
    } else {
      MaskIsMod(a / 2, k - 1);
      MaskStep(a, Pow2(k - 1));
      Pow2Double(k);
    }
  }

  lemma Pow2Double(k: nat)
    requires k > 0
    ensures Pow2(k) == 2 * Pow2(k - 1)
  {
  }

  lemma MaskNone(a: nat)
    ensures And(a, Pow2(0) - 1) == a % Pow2(0)
  {
  }

  lemma MaskZero(p: nat)
    requires p > 0
    ensures And(0, p - 1) == 0 % p
  {
    DivModUnique(0, p, 0, 0);
  }

  lemma MaskStep(a: nat, p: nat)
    requires a > 0 && p > 0 && And(a / 2, p - 1) == a / 2 % p
    ensures And(a, 2 * p - 1) == a % (2 * p)
  {
    hide And;
    AndHalf(a, p);
    ModHalf(a, p);
  }

  /** The lowest bit of an odd mask. */
  lemma AndHalf(a: nat, p: nat)
    requires a > 0 && p > 0
    ensures And(a, 2 * p - 1) == 2 * And(a / 2, p - 1) + a % 2
  {
    assert (2 * p - 1) / 2 == p - 1 && (2 * p - 1) % 2 == 1;
  }

  lemma ModHalf(a: nat, p: nat)
    requires p > 0
    ensures a % (2 * p) == 2 * (a / 2 % p) + a % 2
  {
    var q, r := a / 2 / p, a / 2 % p;
    assert a == (2 * p) * q + (2 * r + a % 2) by { MulAssoc(2, p, q); }
    DivModUnique(a, 2 * p, q, 2 * r + a % 2);
  }

  function Or(a: nat, b: nat): nat
    decreases a + b
  {
    if a == 0 && b == 0 then 0 else 2 * Or(a / 2, b / 2) + if a % 2 + b % 2 > 0 then 1 else 0
  }

  lemma {:induction false} OrZero(a: nat, b: nat)
    ensures Or(a, b) == 0 <==> a == 0 && b == 0
    decreases a + b
  {
    if a > 0 || b > 0 { OrZero(a / 2, b / 2); }
  }

  lemma {:induction false} OrBound(a: nat, b: nat, k: nat)
    requires a < Pow2(k) && b < Pow2(k)
    ensures Or(a, b) < Pow2(k)
    decreases k
  {
    if k > 0 { OrBound(a / 2, b / 2, k - 1); }
  }

  function Xor(a: nat, b: nat): nat
    decreases a + b
  {
    if a == 0 && b == 0 then 0 else 2 * Xor(a / 2, b / 2) + if a % 2 == b % 2 then 0 else 1
  }

  lemma {:induction false} XorBound(a: nat, b: nat, k: nat)
    requires a < Pow2(k) && b < Pow2(k)
    ensures Xor(a, b) < Pow2(k)
    decreases k
  {
    if k > 0 { XorBound(a / 2, b / 2, k - 1); }
  }

  /** Xor undoes itself. */
  lemma {:induction false} XorCancel(a: nat, b: nat)
    ensures Xor(a, Xor(a, b)) == b
    decreases a + b
  {
    if a > 0 || b > 0 {
      XorCancel(a / 2, b / 2);
      var x, h := Xor(a, b), Xor(a / 2, b / 2);
      assert x / 2 == h && x % 2 == if a % 2 == b % 2 then 0 else 1;
      assert Xor(a / 2, x / 2) == b / 2;
      XorHalf(a, x);
    }
  }

  lemma {:induction false} XorZero(a: nat, b: nat)
    ensures Xor(a, b) == 0 <==> a == b
    decreases a + b
  {
    if a > 0 || b > 0 { XorZero(a / 2, b / 2); }
  }

  /** Xor works on the low and the high part of its operands separately. */
  lemma {:induction false} XorSplit(a0: nat, a1: nat, b0: nat, b1: nat, k: nat, x: nat, y: nat)
    requires a0 < Pow2(k) && b0 < Pow2(k) && x == a0 + Pow2(k) * a1 && y == b0 + Pow2(k) * b1
    ensures Xor(x, y) == Xor(a0, b0) + Pow2(k) * Xor(a1, b1)
    decreases k
  {
    if k > 0 {
      var p := Pow2(k - 1);
      HalfAlg(x, a0, p, a1);
      HalfAlg(y, b0, p, b1);
      XorSplit(a0 / 2, a1, b0 / 2, b1, k - 1, x / 2, y / 2);
      XorHalf(x, y);
      XorHalf(a0, b0);
      MulAssoc(2, p, Xor(a1, b1));
    }
  }

  lemma HalfAlg(x: int, a0: int, p: int, a1: int)
    requires x == a0 + 2 * p * a1
    ensures x / 2 == a0 / 2 + p * a1 && x % 2 == a0 % 2
  {
    var u := p * a1;
    assert x == a0 + 2 * u by { MulAssoc(2, p, a1); }
  }

  lemma XorHalf(a: nat, b: nat)
    ensures Xor(a, b) == 2 * Xor(a / 2, b / 2) + if a % 2 == b % 2 then 0 else 1
  {
  }

  function XorByte(a: u8, b: u8): u8
  {
    Pow2Values();
    XorBound(a, b, 8);
    Xor(a, b)
  }

  function XorWord(a: u32, b: u32): u32
  {
    Pow2Word();
    XorBound(a, b, 32);
    Xor(a, b)
  }

  lemma Pow2Word()
    ensures Pow2(32) == 0x1_0000_0000 && Pow2(64) == 0x1_0000_0000_0000_0000
  {
    Pow2Values();
    Pow2Split(8, 8);
    Pow2Split(16, 16);
    Pow2Split(32, 32);
  }
}
