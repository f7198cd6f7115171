/** Montgomery reduction modulo L, and the scalar inversion built on it. */
module Montgomery {
  import opened Words
  import opened NatLemmas
  import opened Bits
  import opened ModL

  const K := 0x9db6c6f26fe9183614e75438ffa36beab1a206f2fdba84ffd2b51da312547e1b
  const K_WORDS: seq<u32> := [
    0x12547e1b, 0xd2b51da3, 0xfdba84ff, 0xb1a206f2,
    0xffa36bea, 0x14e75438, 0x6fe91836, 0x9db6c6f2]

  /** The inverse of 2^256 modulo L. */
  const R_INV := 0x9db6c6f26fe9183614e75438ffa36beb7f5c66a973f754cc766cca43d5f0d24

  const ONE_WORDS: seq<u32> := [
    0x8d98951d, 0xd6ec3174, 0x737dcf70, 0xc6ef5bf4,
    0xfffffffe, 0xffffffff, 0xffffffff, 0x0fffffff]

  const L_MINUS_2_WORDS: seq<u32> := [
    0x5cf5d3eb, 0x5812631a, 0xa2f79cd6, 0x14def9de, 0x00000000, 0x00000000, 0x00000000, 0x10000000]

  /** The exponent table Lm2: the 32 little-endian bytes eb d3 f5 5c ... 00 10. */
  function LMinus2(): (b: seq<u8>)
    ensures |b| == 32
  {
    StoreWords(L_MINUS_2_WORDS)
  }

  lemma Inverse256()
    ensures R256 * R_INV == K * L + 1
  {
  }

  lemma MontgomeryConstants()
    ensures Val(K_WORDS) == K
    ensures Val(ONE_WORDS) == R256 % L
  {
    Val8(K_WORDS);
    Val8(ONE_WORDS);
  }

  /** x + s * L is a multiple of 2^256 when s = x * k modulo 2^256. */
  lemma RedcDivisible(x: int, xlo: int, xhi: int, s: int) returns (h: int)
    requires x == xlo + R256 * xhi
    requires s == (xlo * K) % R256
    ensures s * L + x == R256 * h
  {
    var k1 := xlo * K / R256;
    assert xlo * K == R256 * k1 + s;
    h := xlo * R_INV + xhi - k1 * L;
    calc {
      s * L + x;
      (xlo * K - R256 * k1) * L + xlo + R256 * xhi;
      xlo * (K * L) + xlo + R256 * (xhi - k1 * L);
      { Inverse256(); }
      xlo * (K * L + 1) + R256 * (xhi - k1 * L);
      xlo * (R256 * R_INV) + R256 * (xhi - k1 * L);
      R256 * h;
    }
  }

  /** Dividing by 2^256 is multiplying by its inverse, modulo L. */
  lemma RedcCongruent(x: int, s: int, h: int)
    requires s * L + x == R256 * h
    ensures h % L == (x * R_INV) % L
  {
    var k := h * K - s * R_INV;
    Inverse256();
    calc {
      x * R_INV;
      (R256 * h - s * L) * R_INV;
      h * (R256 * R_INV) - s * L * R_INV;
      h * (K * L + 1) - s * L * R_INV;
      h + L * k;
    }
    ModAddMul(h, k, L);
  }

  /** The upper half of t = x + s * L, before the last conditional subtraction. */
  lemma RedcResult(x: seq<u32>, s: int, t: seq<u32>, carry: u32)
    requires |x| == 16 && |t| == 16 && Val(x) < L * R256
    requires s == (Val(x[..8]) * K) % R256
    requires Val(t + [carry]) == s * L + Val(x)
    ensures Val(t[8..]) < 2 * L
    ensures Val(t[8..]) % L == (Val(x) * R_INV) % L
  {
    ValSplit(x, 8);
    Weight8();
    var h := RedcDivisible(Val(x), Val(x[..8]), Val(x[8..]), s);
    RedcCongruent(Val(x), s, h);
    ValSnoc(t, carry);
    Weight16();
    ValSplit(t, 8);
    ValBound8(t[..8]);
    RedcHigh(Val(t), Val(t[..8]), Val(t[8..]), carry, s, Val(x), h);
  }

  lemma RedcHigh(t: int, lo: int, hi: int, carry: int, s: int, x: int, h: int)
    requires 0 <= s < R256 && 0 <= x < L * R256 && 0 <= carry
    requires t + R512 * carry == s * L + x == R256 * h
    requires t == lo + R256 * hi && 0 <= lo < R256 && 0 <= hi
    ensures hi == h < 2 * L
  {
    assert s * L <= (R256 - 1) * L;
    assert carry == 0;
    DivModUnique(t, R256, hi, lo);
    DivModUnique(t, R256, h, 0);
  }

  /** redc: u = x / 2^256 modulo L, fully reduced. */
  method Redc(u: array<u32>, x: seq<u32>)
    requires u.Length == 8 && |x| == 16 && Val(x) < L * R256
    modifies u
    ensures Val(u[..]) == (Val(x) * R_INV) % L
  {
    MontgomeryConstants();
    var s := new u32[8](i => 0);
    MulLow(s, x[..8], K_WORDS);
    assert s[..8] == s[..];
    var t := TimesL(s[..]);
    var carry := AddWords(t, t[..], x, 0);
    assert t[..16] == t[..];
    RedcResult(x, Val(s[..]), t[..], carry);
    RemoveL(u, t[8..16]);
    assert u[..8] == u[..] && t[8..16] == t[..][8..];
    CondSubtract(Val(t[8..16]), Val(u[..]));
  }

  method TimesL(s: seq<u32>) returns (t: array<u32>)
    requires |s| == 8
    ensures fresh(t) && t.Length == 16 && Val(t[..]) == Val(s) * L
  {
    t := new u32[16](i => 0);
    ZeroVal(t[..8]);
    Constants();
    Multiply(t, s, L_WORDS);
  }

  lemma CondSubtract(x: int, r: int)
    requires 0 <= x < 2 * L
    requires r == if x >= L then x - L else x
    ensures r == x % L
  {
  }

  lemma LMinus2Val()
    ensures BytesVal(LMinus2()) == L - 2
  {
    Val8(L_MINUS_2_WORDS);
    StoreWordsVal(L_MINUS_2_WORDS);
  }

  /** A number in Montgomery form. */
  ghost function Form(x: int): int { (x * R256) % L }

  lemma ReducedProduct(x: int, y: int, i: int, d: int)
    requires 0 < d
    ensures ((x % d) * (y % d) * i) % d == (x * y * i) % d
  {
    var y' := y % d;
    ModMul(x, y' * i, d);
    ModMul(y, x * i, d);
    assert (x % d) * y' * i == (x % d) * (y' * i);
    assert x * (y' * i) == y' * (x * i);
    assert y * (x * i) == x * y * i;
  }

  lemma ShiftAlg(a: int, b: int, r: int, i: int, k: int, l: int)
    requires r * i == k * l + 1
    ensures (a * r) * (b * r) * i == a * b * r + l * (a * b * r * k)
  {
    calc {
      (a * r) * (b * r) * i;
      (a * b * r) * (r * i);
      (a * b * r) * (k * l + 1);
      a * b * r + l * (a * b * r * k);
    }
  }

  /** The product of two numbers in Montgomery form, reduced, is their product in Montgomery form. */
  lemma MontgomeryProduct(m1: int, m2: int, a: int, b: int)
    requires m1 == Form(a) && m2 == Form(b)
    ensures (m1 * m2 * R_INV) % L == Form(a * b)
  {
    Inverse256();
    assert L > 0;
    hide L, R256, R_INV, K;
    ReducedProduct(a * R256, b * R256, R_INV, L);
    ShiftAlg(a, b, R256, R_INV, K, L);
    ModAddMul(a * b * R256, a * b * R256 * K, L);
  }

  /** Leaving Montgomery form. */
  lemma MontgomeryExit(m: int, a: int)
    requires m == Form(a)
    ensures (m * R_INV) % L == a % L
  {
    ModMul(a * R256, R_INV, L);
    Inverse256();
    calc {
      a * R256 * R_INV;
      a * (R256 * R_INV);
      a * (K * L + 1);
      a + L * (a * K);
    }
    ModAddMul(a, a * K, L);
  }

  /** The scalar in Montgomery form: scalar * 2^256 modulo L. */
  method EnterMontgomery(scalar: seq<u8>) returns (m: seq<u32>)
    requires |scalar| == 32
    ensures |m| == 8 && Val(m) == Form(BytesVal(scalar))
  {
    var zeros: seq<u32>, w := seq(8, i => 0), LoadWords(scalar);
    var bytes := Reduce(zeros + w);
    ShiftedVal(zeros, w);
    LoadWordsVal(scalar);
    m := LoadWords(bytes);
    LoadWordsVal(bytes);
  }

  lemma ShiftedVal(zeros: seq<u32>, w: seq<u32>)
    requires |zeros| == 8 && forall k :: 0 <= k < 8 ==> zeros[k] == 0
    ensures Val(zeros + w) == Val(w) * R256
  {
    ZeroVal(zeros);
    Weight8();
    ValSplit(zeros + w, 8);
    assert (zeros + w)[..8] == zeros && (zeros + w)[8..] == w;
  }

  /** One Montgomery multiplication: m = m * f / 2^256 modulo L. */
  method MontgomeryStep(m: array<u32>, f: seq<u32>, ghost a: nat, ghost b: nat)
    requires m.Length == 8 && |f| == 8
    requires Val(m[..]) == Form(a) && Val(f) == Form(b)
    modifies m
    ensures Val(m[..]) == Form(a * b)
  {
    var product := new u32[16](i => 0);
    ZeroVal(product[..8]);
    ghost var m1 := Val(m[..]);
    Multiply(product, m[..], f);
    ProductFits(m1, Val(f));
    Redc(m, product[..]);
    MontgomeryProduct(m1, Val(f), a, b);
  }

  lemma ProductFits(x: nat, y: nat)
    requires x < L && y < L
    ensures x * y < L * R256
  {
    MulMono(x, y, L, L);
  }

  /** Square and multiply over the bits of e: m becomes s^e in Montgomery form. */
  method PowerLoop(m: array<u32>, f: seq<u32>, e: seq<u8>, ghost s: nat)
    requires m.Length == 8 && |f| == 8 && |e| == 32
    requires Val(m[..]) == Form(1) && Val(f) == Form(s)
    requires TopBits(e, 253) == 0
    modifies m
    ensures Val(m[..]) == Form(Pow(s, BytesVal(e)))
  {
    PowZero(s);
    hide Form, Pow, TopBits, ScalarBit, Val, BytesVal;
    for i := 253 downto 0
      invariant Val(m[..]) == Form(Pow(s, TopBits(e, i)))
    {
      ghost var hi := TopBits(e, i + 1);
      TopBitsStep(e, i);
      PowDouble(s, hi);
      MontgomeryStep(m, m[..], Pow(s, hi), Pow(s, hi));
      if ScalarBit(e, i) == 1 {
        MontgomeryStep(m, f, Pow(s, 2 * hi), s);
        PowNext(s, 2 * hi);
      }
    }
    TopBitsAll(e);
  }

  lemma PowZero(s: nat)
    ensures Pow(s, 0) == 1
  {
  }

  lemma PowNext(s: nat, n: nat)
    ensures Pow(s, n + 1) == Pow(s, n) * s
  {
  }

  lemma TopBitsAll(e: seq<u8>)
    ensures TopBits(e, 0) == BytesVal(e)
  {
  }

  /** The inversion of crypto_x25519_inverse: scalar^(L-2) modulo L. */
  method Invert(scalar: seq<u8>) returns (inverse: seq<u8>)
    requires |scalar| == 32
    ensures |inverse| == 32
    ensures BytesVal(inverse) == Pow(BytesVal(scalar), L - 2) % L
  {
    var e := LMinus2();
    LMinus2Val();
    TopBitsZero(e, 253);
    var mScl := EnterMontgomery(scalar);
    var mInv := MontgomeryOne();
    PowerLoop(mInv, mScl, e, BytesVal(scalar));
    inverse := LeaveMontgomery(mInv, Pow(BytesVal(scalar), BytesVal(e)));
  }

  method MontgomeryOne() returns (m: array<u32>)
    ensures fresh(m) && m.Length == 8 && Val(m[..]) == Form(1)
  {
    MontgomeryConstants();
    var one := ONE_WORDS;
    m := new u32[8](i requires 0 <= i < 8 => one[i]);
    assert m[..] == one;
  }

  lemma TopBitsZero(e: seq<u8>, n: nat)
    requires BytesVal(e) == L - 2 && n == 253
    ensures TopBits(e, n) == 0
  {
    Pow2Weight(8);
    Weight8();
    Pow2Split(n, 3);
    Pow2Values();
    DivSmall(L - 2, Pow2(n));
  }

  method LeaveMontgomery(m: array<u32>, ghost a: nat) returns (bytes: seq<u8>)
    requires m.Length == 8 && Val(m[..]) == Form(a)
    modifies m
    ensures |bytes| == 32 && BytesVal(bytes) == a % L
  {
    var zeros: seq<u32> := seq(8, i => 0);
    ZeroVal(zeros);
    var x := m[..] + zeros;
    assert x[..8] == m[..] && x[8..] == zeros;
    ValSplit(x, 8);
    MontgomeryExit(Val(x), a);
    Redc(m, x);
    bytes := StoreWords(m[..]);
    StoreWordsVal(m[..]);
  }

  /** add_xl: s + L * (x modulo 8), which the caller keeps below 2^256. */
  method AddXL(s: seq<u8>, x: u8) returns (r: seq<u8>)
    requires |s| == 32 && BytesVal(s) + (x % 8) * L < R256
    ensures |r| == 32 && BytesVal(r) == BytesVal(s) + (x % 8) * L
  {
    LoadWordsVal(s);
    var w := AddMultiple(LoadWords(s), x % 8);
    r := StoreWords(w);
    StoreWordsVal(w);
  }

  method AddMultiple(w: seq<u32>, x: u32) returns (r: seq<u32>)
    requires |w| == 8 && Val(w) + x * L < R256
    ensures |r| == 8 && Val(r) == Val(w) + x * L
  {
    hide L;
    var p := new u32[8](i requires 0 <= i < 8 => w[i]);
    assert p[..] == p[0..8] == w;
    var carry := AddRowL(p, x);
    r := p[..];
    assert r == p[0..8];
    CarryOut(r, carry);
  }

  method AddRowL(p: array<u32>, x: u32) returns (carry: u32)
    requires p.Length == 8
    modifies p
    ensures Val(p[0..8] + [carry]) == Val(old(p[0..8])) + x * L
  {
    var l := L_WORDS;
    Constants();
    carry := MulAddRow(p, 0, x, l);
  }

  /** crypto_eddsa_trim_scalar. */
  function Trim(s: seq<u8>): (r: seq<u8>)
    requires |s| == 32
    ensures |r| == 32
  {
    s[0 := s[0] / 8 * 8][31 := s[31] % 64 + 64]
  }

  /**
   * The scalar crypto_x25519_inverse multiplies the point by: the power L-2 of the trimmed key
   * modulo L, made a multiple of the cofactor 8 without leaving that residue class.
   */
  method ClearedInverse(key: seq<u8>) returns (r: seq<u8>)
    requires |key| == 32
    ensures |r| == 32 && BytesVal(r) < 8 * L
    ensures BytesVal(r) % 8 == 0
    ensures BytesVal(r) % L == Pow(BytesVal(Trim(key)), L - 2) % L
  {
    var inverse := Invert(Trim(key));
    var x: u8 := TripleFirst(inverse);
    r := AddXL(inverse, x);
    CofactorAlg(BytesVal(inverse), x, BytesVal(r));
  }

  /** scalar[0] * 3, as the byte that is passed on. */
  function TripleFirst(s: seq<u8>): (x: u8)
    requires |s| == 32
    ensures x % 8 == 3 * BytesVal(s) % 8
  {
    TripleAlg(s[0], BytesVal(s[1..]), BytesVal(s));
    (s[0] as nat) * 3 % 0x100
  }

  lemma TripleAlg(b: int, rest: int, v: int)
    requires v == b + 0x100 * rest
    ensures b * 3 % 0x100 % 8 == 3 * v % 8
  {
  }

  lemma CofactorAlg(v: int, x: u8, r: int)
    requires 0 <= v < L && x % 8 == 3 * v % 8 && r == v + (x % 8) * L
    ensures r < 8 * L && r % 8 == 0 && r % L == v
  {
    var m, k := x % 8, 3 * v / 8;
    var h := m * (L / 8) + 2 * v - 5 * k;
    assert L == 8 * (L / 8) + 5;
    assert r == 8 * h;
    DivModUnique(r, L, m, v);
  }
}
