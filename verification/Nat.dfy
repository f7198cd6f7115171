/** Small facts of integer arithmetic that the solver does not find by itself. */
module NatLemmas {

  /** Quotient and remainder are determined by the division equation. */
  lemma DivModUnique(x: int, d: int, q: int, r: int)
    requires 0 < d && 0 <= r < d && x == d * q + r
    ensures x / d == q && x % d == r
  {
    var q', r' := x / d, x % d;
    assert x == d * q' + r';
    MulSub(d, q, q');
    if q < q' {
      MulMono(d, 1, d, q' - q);
      MulSub(d, q', q);
    } else if q > q' {
      MulMono(d, 1, d, q - q');
    }
  }

  /** Adding a multiple of the modulus does not change the remainder. */
  lemma ModAddMul(x: int, k: int, d: int)
    requires 0 < d
    ensures (x + d * k) % d == x % d
  {
    assert x + d * k == d * (x / d + k) + x % d;
    DivModUnique(x + d * k, d, x / d + k, x % d);
  }

  /** Congruent numbers have congruent products. */
  lemma ModMul(x: int, y: int, d: int)
    requires 0 < d
    ensures (x * y) % d == ((x % d) * y) % d
  {
    assert x == d * (x / d) + x % d;
    assert x * y == (x % d) * y + d * ((x / d) * y);
    ModAddMul((x % d) * y, (x / d) * y, d);
  }

  lemma MulSub(a: int, b: int, c: int)
    ensures a * (b - c) == a * b - a * c
  {
  }

  lemma MulAdd(a: int, b: int, c: int)
    ensures a * (b + c) == a * b + a * c
  {
  }

  lemma MulMono(a: nat, b: nat, c: nat, d: nat)
    requires a <= c && b <= d
    ensures 0 <= a * b <= c * d
  {
    assert a * b <= c * b <= c * d;
  }

  lemma MulAssoc(a: int, b: int, c: int)
    ensures a * (b * c) == (a * b) * c
  {
  }

  lemma DistR(v: int, w: int, x: int, b: int, s: int)
    requires s == v + w * x
    ensures s * b == v * b + w * (x * b)
  {
    assert (w * x) * b == w * (x * b);
  }

  lemma DivNonNeg(x: int, d: int)
    requires 0 <= x && 0 < d
    ensures 0 <= x / d
  {
    var q, r := x / d, x % d;
    assert x == d * q + r;
  }

  lemma DivSmall(x: int, d: int)
    requires 0 <= x < d
    ensures x / d == 0
  {
    DivModUnique(x, d, 0, x);
  }

  /** A sum may be reduced before it is multiplied. */
  lemma ModAddMulNoop(x: int, y: int, z: int, d: int)
    requires 0 < d
    ensures ((x % d + y) * z) % d == ((x + y) * z) % d
  {
    var q := x / d;
    assert x == d * q + x % d;
    assert (x + y) * z == (x % d + y) * z + d * (q * z);
    ModAddMul((x % d + y) * z, q * z, d);
  }

  lemma ModSucc(x: int, d: int)
    requires 0 < d
    ensures (x % d + 1) % d == (x + 1) % d
  {
    ModAddMul(x % d + 1, x / d, d);
    assert x == d * (x / d) + x % d;
  }
}
