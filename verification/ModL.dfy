/**
 * Arithmetic modulo the group order L on arrays of 32-bit words:
 * word multiplication, conditional subtraction and Barrett reduction.
 * Every carry is held in a u64 or u32 variable, so verification shows that no
 * machine word overflows.
 */
module ModL {
  import opened Words
  import opened NatLemmas

  const L := 0x1000000000000000000000000000000014def9dea2f79cd65812631a5cf5d3ed
  const L_WORDS: seq<u32> := [
    0x5cf5d3ed, 0x5812631a, 0xa2f79cd6, 0x14def9de,
    0x00000000, 0x00000000, 0x00000000, 0x10000000]

  const BARRETT := 0xfffffffffffffffffffffffffffffffeb2106215d086329a7ed9ce5a30a2c131b
  const BARRETT_WORDS: seq<u32> := [
    0x0a2c131b, 0xed9ce5a3, 0x086329a7, 0x2106215d,
    0xffffffeb, 0xffffffff, 0xffffffff, 0xffffffff, 0xf]

  const R256 := 0x1_0000000000000000000000000000000000000000000000000000000000000000
  const R512 := R256 * R256

  lemma Weight8()
    ensures Weight(8) == R256
  {
    assert Weight(2) == W * W;
    assert Weight(4) == 0x1_00000000_00000000_00000000_00000000 by { WeightSplit(2, 2); }
    WeightSplit(4, 4);
  }

  /** The value of eight words, written out. */
  lemma Val8(s: seq<u32>)
    requires |s| == 8
    ensures Val(s) == s[0] + W * (s[1] + W * (s[2] + W * (s[3] + W * (s[4] + W * (s[5] + W * (s[6] + W * s[7]))))))
  {
    assert Val(s[8..]) == 0;
    assert s[7..][1..] == s[8..] && s[6..][1..] == s[7..] && s[5..][1..] == s[6..] && s[4..][1..] == s[5..];
    assert s[3..][1..] == s[4..] && s[2..][1..] == s[3..] && s[1..][1..] == s[2..];
    assert Val(s[7..]) == s[7];
    assert Val(s[6..]) == s[6] + W * Val(s[7..]);
    assert Val(s[5..]) == s[5] + W * Val(s[6..]);
    assert Val(s[4..]) == s[4] + W * Val(s[5..]);
    assert Val(s[3..]) == s[3] + W * Val(s[4..]);
    assert Val(s[2..]) == s[2] + W * Val(s[3..]);
    assert Val(s[1..]) == s[1] + W * Val(s[2..]);
  }

  lemma Constants()
    ensures Val(L_WORDS) == L
    ensures Val(BARRETT_WORDS) == BARRETT
  {
    Val8(L_WORDS);
    Val8(BARRETT_WORDS[1..]);
  }

  /** The largest double word a multiply-accumulate step can produce still fits 64 bits. */
  lemma MacFits(a: u32, b: u32, c: u32, d: u32)
    ensures 0 <= a * b
    ensures a * b + c + d < 0x1_0000_0000_0000_0000
  {
    MulMono(a, b, W - 1, W - 1);
  }

  lemma RowAlg(lo: int, w: int, w1: int, lo0: int, y: int, c: int, pj: int, x: int, yj: int, t: int,
               was: int, now: int, next: int, next0: int, nexty: int)
    requires w1 == W * w && t == c + pj + x * yj
    requires was == lo + w * c == lo0 + x * y
    requires now == lo + w * (t % W) && next == now + w1 * (t / W)
    requires next0 == lo0 + w * pj && nexty == y + w * yj
    ensures next == next0 + x * nexty
  {
    assert t == W * (t / W) + t % W;
    calc {
      next;
      lo + w * (t % W + W * (t / W));
      lo + w * c + w * pj + w * (x * yj);
      { assert w * (x * yj) == x * (w * yj); }
      lo0 + x * y + w * pj + x * (w * yj);
      { assert x * y + x * (w * yj) == x * (y + w * yj); }
      next0 + x * nexty;
    }
  }

  /** One step of a carry chain: the finished words and the carry keep the accumulated sum. */
  lemma RowStep(lo: seq<u32>, c: u32, lo0: seq<u32>, pj: u32, x: u32, y: seq<u32>, yj: u32, t: u64)
    requires |lo| == |lo0| == |y|
    requires Val(lo + [c]) == Val(lo0) + x * Val(y)
    requires t == c + pj + x * yj
    ensures Val(lo + [t % W] + [t / W]) == Val(lo0 + [pj]) + x * Val(y + [yj])
  {
    ValSnoc(lo, c);
    ValSnoc(lo, t % W);
    ValSnoc(lo + [t % W], t / W);
    ValSnoc(lo0, pj);
    ValSnoc(y, yj);
    RowAlg(Val(lo), Weight(|lo|), Weight(|lo| + 1), Val(lo0), Val(y), c, pj, x, yj, t, Val(lo + [c]),
           Val(lo + [t % W]), Val(lo + [t % W] + [t / W]), Val(lo0 + [pj]), Val(y + [yj]));
  }

  /** Words off .. off+|y| of p gain x * y; the word that does not fit is returned. */
  method MulAddRow(p: array<u32>, off: nat, x: u32, y: seq<u32>) returns (carry: u32)
    requires off + |y| <= p.Length
    modifies p
    ensures Val(p[off..off + |y|] + [carry]) == Val(old(p[off..off + |y|])) + x * Val(y)
    ensures p[..off] == old(p[..off]) && p[off + |y|..] == old(p[off + |y|..])
  {
    ghost var was := p[..];
    carry := 0;
    ValFew(0);
    hide Val, Weight;
    assert p[off..off + 0] == [] && y[..0] == [] && was[off..off + 0] == [] && [] + [carry] == [0];
    for j := 0 to |y|
      invariant Val(p[off..off + j] + [carry]) == Val(was[off..off + j]) + x * Val(y[..j])
      invariant p[..off] == was[..off] && p[off + j..] == was[off + j..]
    {
      ghost var c0, lo := carry, p[off..off + j];
      assert p[off + j] == p[off + j..][0] == was[off + j];
      MacFits(x, y[j], carry, p[off + j]);
      var t: u64 := carry + p[off + j] + x * y[j];
      p[off + j] := t % W;
      carry := t / W;
      RowStep(lo, c0, was[off..off + j], was[off + j], x, y[..j], y[j], t);
      assert p[off..off + j + 1] == lo + [t % W];
      assert was[off..off + j + 1] == was[off..off + j] + [was[off + j]];
      assert y[..j + 1] == y[..j] + [y[j]];
    }
    assert y[..|y|] == y;
  }

  /** The words hold the product of a and b added to what was there. */
  ghost predicate Rows(p: seq<u32>, a: seq<u32>, b: int, p0: int)
  {
    Val(p) == Val(a) * b + p0
  }

  lemma NoRows(p: seq<u32>, b: int)
    ensures Rows(p, [], b, Val(p))
  {
    ValFew(0);
  }

  lemma RowsValue(p: seq<u32>, a: seq<u32>, b: int, p0: int)
    requires Rows(p, a, b, p0)
    ensures Val(p) == Val(a) * b + p0
  {
  }

  /** Row i of a product: adding x * b at word i extends the multiplier by x. */
  lemma MulIter(before: seq<u32>, after: seq<u32>, a: seq<u32>, x: u32, b: int, p0: int)
    requires |a| <= |before| && |a| <= |after|
    requires after[..|a|] == before[..|a|]
    requires Val(after[|a|..]) == Val(before[|a|..]) + x * b
    requires Rows(before, a, b, p0)
    ensures Rows(after, a + [x], b, p0)
  {
    ValSplice(before, after, |a|, x * b);
    SnocTimes(a, x, b);
  }

  /** p = a * b + p, where only the low |b| words of p count as input. */
  method Multiply(p: array<u32>, a: seq<u32>, b: seq<u32>)
    requires p.Length == |a| + |b|
    modifies p
    ensures Val(p[..]) == Val(a) * Val(b) + Val(old(p[..|b|]))
  {
    ghost var p0 := p[..|b|];
    NoRows(p0, Val(b));
    hide Val, Weight, Rows;
    assert a[..0] == [] && p[..0 + |b|] == p0;
    for i := 0 to |a|
      invariant Rows(p[..i + |b|], a[..i], Val(b), Val(p0))
    {
      ghost var before := p[..i + |b|];
      assert before[i..] == p[i..i + |b|];
      var carry := MulAddRow(p, i, a[i], b);
      assert p[..i] == before[..i];
      p[i + |b|] := carry;
      ghost var after := p[..i + |b| + 1];
      assert after[..i] == before[..i];
      assert after[i..] == p[i..i + |b|] + [carry];
      assert a[..i + 1] == a[..i] + [a[i]];
      MulIter(before, after, a[..i], a[i], Val(b), Val(p0));
    }
    assert p[..|a| + |b|] == p[..] && a[..|a|] == a;
    RowsValue(p[..], a, Val(b), Val(p0));
  }

  lemma ValFew(x: u32)
    ensures Val([]) == 0 && Val([x]) == x
  {
  }

  lemma {:induction false} ZeroVal(s: seq<u32>)
    requires forall k :: 0 <= k < |s| ==> s[k] == 0
    ensures Val(s) == 0
  {
    if s != [] { ZeroVal(s[1..]); }
  }

  lemma LowRowAlg(wi: int, wn: int, w: int, x: int, lo: int, hi: int, b: int)
    requires w == wi * wn && b == lo + wn * hi
    ensures wi * (x * b) == wi * (x * lo) + w * (x * hi)
  {
    assert x * (lo + wn * hi) == x * lo + wn * (x * hi);
    MulAdd(wi, x * lo, wn * (x * hi));
    MulAssoc(wi, wn, x * hi);
  }

  /** A row cut after its first n words misses a multiple of the weight of the first word left out. */
  lemma LowRow(i: nat, n: nat, x: u32, b: seq<u32>)
    requires n <= |b|
    ensures Weight(i) * (x * Val(b)) == Weight(i) * (x * Val(b[..n])) + Weight(i + n) * (x * Val(b[n..]))
  {
    WeightSplit(i, n);
    ValSplit(b, n);
    LowRowAlg(Weight(i), Weight(n), Weight(i + n), x, Val(b[..n]), Val(b[n..]), Val(b));
  }

  /** What row i of MulLow does to the words kept, with the carry that is cut off. */
  lemma LowStep(before: seq<u32>, after: seq<u32>, i: nat, carry: u32, lo: int)
    requires |before| == |after| && i < |before|
    requires after[..i] == before[..i]
    requires Val(after[i..] + [carry]) == Val(before[i..]) + lo
    ensures Val(after) + Weight(|after|) * carry == Val(before) + Weight(i) * lo
  {
    SnocSlices(after, carry, i);
    ValSplice(before, after + [carry], i, lo);
    ValSnoc(after, carry);
  }

  lemma SnocSlices(s: seq<u32>, x: u32, i: nat)
    requires i <= |s|
    ensures (s + [x])[..i] == s[..i] && (s + [x])[i..] == s[i..] + [x]
  {
  }

  lemma LowAlg(after: int, w: int, carry: int, before: int, lo: int, hi: int, whole: int, drop: int,
               prev: int, next: int)
    requires after + w * carry == before + lo && whole == lo + w * hi
    requires before + w * drop == prev && next == prev + whole
    ensures after + w * (drop + carry + hi) == next
  {
  }

  /** The words hold the product of a and b but for drop, which falls off the top. */
  ghost predicate LowRows(p: seq<u32>, a: seq<u32>, b: seq<u32>, drop: int)
  {
    Val(p) + Weight(8) * drop == Val(a) * Val(b)
  }

  lemma NoLowRows(p: seq<u32>, b: seq<u32>)
    requires |p| == 8 && forall k :: 0 <= k < 8 ==> p[k] == 0
    ensures LowRows(p, [], b, 0)
  {
    ZeroVal(p);
    ValFew(0);
  }

  /** Row i of MulLow keeps p + 2^256 * drop equal to the rows added so far. */
  lemma LowIter(before: seq<u32>, after: seq<u32>, a: seq<u32>, x: u32, b: seq<u32>, carry: u32, drop: int)
    returns (drop': int)
    requires |before| == |after| == |b| == 8 && |a| < 8
    requires after[..|a|] == before[..|a|]
    requires Val(after[|a|..] + [carry]) == Val(before[|a|..]) + x * Val(b[..8 - |a|])
    requires LowRows(before, a, b, drop)
    ensures LowRows(after, a + [x], b, drop')
  {
    hide Val, Weight;
    var i, lo, hi := |a|, x * Val(b[..8 - |a|]), x * Val(b[8 - |a|..]);
    LowStep(before, after, i, carry, lo);
    LowRow(i, 8 - i, x, b);
    SnocTimes(a, x, Val(b));
    drop' := drop + carry + hi;
    LowAlg(Val(after), Weight(8), carry, Val(before), Weight(i) * lo, hi,
           Weight(i) * (x * Val(b)), drop, Val(a) * Val(b), Val(a + [x]) * Val(b));
  }

  /** p = a * b modulo 2^256. */
  method MulLow(p: array<u32>, a: seq<u32>, b: seq<u32>)
    requires p.Length >= 8 && |a| == 8 && |b| == 8
    requires forall k :: 0 <= k < 8 ==> p[k] == 0
    modifies p
    ensures Val(p[..8]) == (Val(a) * Val(b)) % R256
    ensures p[8..] == old(p[8..])
  {
    ghost var drop := 0;
    NoLowRows(p[..8], b);
    hide Val, Weight, LowRows;
    assert a[..0] == [];
    for i := 0 to 8
      invariant LowRows(p[..8], a[..i], b, drop)
      invariant p[8..] == old(p[8..])
    {
      ghost var before := p[..8];
      assert before[i..] == p[i..8];
      var carry := MulAddRow(p, i, a[i], b[..8 - i]);
      assert p[..8][..i] == p[..i] == before[..i];
      assert p[..8][i..] == p[i..8];
      assert a[..i + 1] == a[..i] + [a[i]];
      drop := LowIter(before, p[..8], a[..i], a[i], b, carry, drop);
    }
    assert a[..8] == a;
    LowResult(p[..8], a, b, drop);
  }

  lemma LowResult(s: seq<u32>, a: seq<u32>, b: seq<u32>, drop: int)
    requires |s| == 8 && LowRows(s, a, b, drop)
    ensures Val(s) == (Val(a) * Val(b)) % R256
  {
    Weight8();
    ValBound(s);
    DivModUnique(Val(a) * Val(b), R256, drop, Val(s));
  }

  /** r = x + y + cin, word by word; the carry out of the last word is returned. */
  method AddWords(r: array<u32>, x: seq<u32>, y: seq<u32>, cin: u32) returns (carry: u32)
    requires |x| == |y| <= r.Length && cin <= 1
    modifies r
    ensures carry <= 1
    ensures Val(r[..|x|] + [carry]) == Val(x) + Val(y) + cin
    ensures r[|x|..] == old(r[|x|..])
  {
    carry := cin;
    for i := 0 to |x|
      invariant carry <= 1
      invariant Val(r[..i] + [carry]) == Val(x[..i]) + Val(y[..i]) + cin
      invariant r[i..] == old(r[i..])
    {
      ghost var c0, lo := carry, r[..i];
      var t: u64 := carry + x[i] + y[i];
      r[i] := t % W;
      carry := t / W;
      AddStep(lo, c0, x[..i], x[i], y[..i], y[i], cin, t);
      assert r[..i + 1] == lo + [t % W];
      assert x[..i + 1] == x[..i] + [x[i]];
      assert y[..i + 1] == y[..i] + [y[i]];
    }
    assert x[..|x|] == x && y[..|y|] == y;
  }

  /** Bitwise complement of every word. */
  function Not(s: seq<u32>): (n: seq<u32>)
    ensures |n| == |s|
  {
    seq(|s|, i requires 0 <= i < |s| => W - 1 - s[i])
  }

  lemma {:induction false} NotVal(s: seq<u32>)
    ensures Val(Not(s)) == Weight(|s|) - 1 - Val(s)
  {
    if s != [] {
      NotVal(s[1..]);
      assert Not(s)[1..] == Not(s[1..]);
    }
  }

  lemma NotVal8(s: seq<u32>)
    requires |s| == 8
    ensures Val(Not(s)) == R256 - 1 - Val(s)
  {
    NotVal(s);
    Weight8();
  }

  /** Eight result words and a carry, as a number. */
  lemma CarryOut(s: seq<u32>, carry: u32)
    requires |s| == 8
    ensures Val(s + [carry]) == Val(s) + R256 * carry && Val(s) < R256
  {
    ValSnoc(s, carry);
    ValBound(s);
    Weight8();
  }

  lemma NotL()
    ensures |Not(L_WORDS)| == 8 && Val(Not(L_WORDS)) == R256 - 1 - L
  {
    NotVal8(L_WORDS);
    Constants();
  }

  /** The carry out of x + ~L + 1 tells whether x is at least L, and the sum is then x - L. */
  lemma AboveResult(lo: seq<u32>, carry: u32, x: nat, y: nat)
    requires |lo| == 8 && x < R256 && y == R256 - 1 - L
    requires Val(lo + [carry]) == x + y + 1
    ensures carry == if x >= L then 1 else 0
    ensures x >= L ==> Val(lo) == x - L
  {
    CarryOut(lo, carry);
  }

  /** 1 exactly when x is at least L: the carry out of x + ~L + 1. */
  method IsAboveL(x: seq<u32>) returns (carry: u32)
    requires |x| == 8
    ensures carry == if Val(x) >= L then 1 else 0
  {
    var y := Not(L_WORDS);
    carry := 1;
    ghost var lo: seq<u32> := [];
    ValFew(1);
    hide Val, Weight;
    assert x[..0] == [] && y[..0] == [] && lo + [carry] == [1];
    for i := 0 to 8
      invariant |lo| == i && carry <= 1
      invariant Val(lo + [carry]) == Val(x[..i]) + Val(y[..i]) + 1
    {
      ghost var c0 := carry;
      var t: u64 := carry + x[i] + y[i];
      carry := t / W;
      AddStep(lo, c0, x[..i], x[i], y[..i], y[i], 1, t);
      assert x[..i + 1] == x[..i] + [x[i]];
      assert y[..i + 1] == y[..i] + [y[i]];
      lo := lo + [t % W];
    }
    assert x[..8] == x && y[..8] == y;
    NotL();
    ValBound8(x);
    AboveResult(lo, carry, Val(x), Val(y));
  }

  /** Conditional subtraction: r = x - L when x is at least L, and r = x otherwise. */
  method RemoveL(r: array<u32>, x: seq<u32>)
    requires r.Length >= 8 && |x| == 8
    modifies r
    ensures Val(r[..8]) == if Val(x) >= L then Val(x) - L else Val(x)
    ensures r[8..] == old(r[8..])
  {
    var above := IsAboveL(x);
    ValBound8(x);
    if above == 1 {
      NotL();
      var carry := AddWords(r, x, Not(L_WORDS), 1);
      AboveResult(r[..8], carry, Val(x), Val(Not(L_WORDS)));
    } else {
      var y := seq(8, i => 0);
      ZeroVal(y);
      var carry := AddWords(r, x, y, 0);
      CarryOut(r[..8], carry);
    }
  }

  lemma ValBound8(s: seq<u32>)
    requires |s| == 8
    ensures Val(s) < R256
  {
    ValBound(s);
    Weight8();
  }

  lemma BarrettIdentity(x: int, q: int, rem: int, e: int, l: int, r: int, m: int)
    requires m == r * l + e && x * r == m * q + rem
    ensures m * (x - q * l) == x * e + rem * l
  {
    calc {
      m * (x - q * l);
      m * x - (m * q) * l;
      m * x - (x * r - rem) * l;
      m * x - x * (r * l) + rem * l;
      { MulSub(x, m, r * l); }
      x * e + rem * l;
    }
  }

  lemma QuotientBounds(m: int, d: int, l: int, s: int)
    requires 0 < m && m * d == s && 0 <= s < 2 * (m * l)
    ensures 0 <= d < 2 * l
  {
  }

  /** The Barrett quotient is the true one or one less: the remainder it leaves is below 2 * l. */
  lemma BarrettAlg(x: int, q: int, rem: int, e: int, l: int, r: int, m: int)
    requires 0 <= x < m && 0 <= e < l && m == r * l + e
    requires x * r == m * q + rem && 0 <= rem < m
    ensures 0 <= x - q * l < 2 * l
  {
    BarrettIdentity(x, q, rem, e, l, r, m);
    assert 0 <= x * e <= m * l by { MulMono(x, e, m, l); }
    assert 0 <= rem * l <= (m - 1) * l by { MulMono(rem, l, m - 1, l); }
    assert (m - 1) * l < m * l;
    QuotientBounds(m, x - q * l, l, x * e + rem * l);
  }

  lemma BarrettBound(x: nat)
    requires x < R512
    ensures 0 <= x - x * BARRETT / R512 * L < 2 * L
  {
    var q, rem := x * BARRETT / R512, x * BARRETT % R512;
    BarrettAlg(x, q, rem, R512 - BARRETT * L, L, BARRETT, R512);
  }

  /** Subtracting the quotient modulo 2^256 is enough, because the remainder fits 256 bits. */
  lemma LowSubtract(x: int, xlo: int, xhi: int, q: int, qlo: int, qhi: int, p: int, d: int, carry: int)
    requires x == xlo + R256 * xhi && q == qlo + R256 * qhi
    requires p == (qlo * L) % R256
    requires d + R256 * carry == xlo + (R256 - 1 - p) + 1 && 0 <= d < R256
    requires 0 <= x - q * L < 2 * L
    ensures d == x - q * L
  {
    var k := qlo * L / R256;
    assert qlo * L == R256 * k + p;
    assert q * L == qlo * L + R256 * (qhi * L);
    var e := carry - 1 + xhi - k - qhi * L;
    assert x - q * L == d + R256 * e;
  }

  /** xr = x * r; the words from 16 on are then the Barrett quotient. */
  method TimesBarrett(xr: array<u32>, x: seq<u32>)
    requires |x| == 16 && xr.Length == 25
    requires forall k :: 0 <= k < 16 ==> xr[k] == 0
    modifies xr
    ensures Val(x) < R512
    ensures Val(xr[16..]) == Val(x) * BARRETT / R512
  {
    ZeroVal(xr[..16]);
    var r := BARRETT_WORDS;
    Constants();
    Multiply(xr, r, x);
    Quotient(x, xr[..]);
  }

  lemma QuotientAlg(v: int, lo: int, hi: int, x: int, w: int)
    requires w == R512 && v == BARRETT * x && v == lo + w * hi && 0 <= lo < w
    ensures hi == x * BARRETT / R512
  {
    DivModUnique(v, w, hi, lo);
  }

  lemma Quotient(x: seq<u32>, xr: seq<u32>)
    requires |x| == 16 && |xr| == 25
    requires Val(xr) == BARRETT * Val(x)
    ensures Val(x) < R512
    ensures Val(xr[16..]) == Val(x) * BARRETT / R512
  {
    Weight16();
    ValBound(x);
    ValBound(xr[..16]);
    ValSplit(xr, 16);
    QuotientAlg(Val(xr), Val(xr[..16]), Val(xr[16..]), Val(x), Weight(16));
  }

  /** mod_l: the Barrett reduction of sixteen words, stored as 32 bytes. */
  method Reduce(x: seq<u32>) returns (reduced: seq<u8>)
    requires |x| == 16
    ensures |reduced| == 32 && BytesVal(reduced) == Val(x) % L
  {
    hide Val, Weight, L, BARRETT, R256, R512, Not;
    var xr := new u32[25](i => 0);
    TimesBarrett(xr, x);
    ghost var q := xr[16..];
    for i := 0 to 8
      invariant forall k :: 0 <= k < i ==> xr[k] == 0
      invariant xr[16..] == q
    {
      xr[i] := 0;
    }
    var qlo := xr[16..24];
    assert qlo == q[..8];
    MulLow(xr, qlo, L_WORDS);
    ghost var p := xr[..8];
    var carry := AddWords(xr, x[..8], Not(xr[..8]), 1);
    Remainder(x, q, p, xr[..8], carry);
    RemoveL(xr, xr[..8]);
    reduced := StoreWords(xr[..8]);
    StoreWordsVal(xr[..8]);
    RemainderUnique(Val(x), Val(q), Val(xr[..8]));
  }

  lemma RemainderUnique(x: int, q: int, r: int)
    requires r == (if x - q * L >= L then x - q * L - L else x - q * L)
    requires 0 <= x - q * L < 2 * L
    ensures r == x % L
  {
    if x - q * L >= L {
      DivModUnique(x, L, q + 1, r);
    } else {
      DivModUnique(x, L, q, r);
    }
  }

  lemma Weight16()
    ensures Weight(16) == R512
  {
    Weight8();
    WeightSplit(8, 8);
  }

  lemma Remainder(x: seq<u32>, q: seq<u32>, p: seq<u32>, d: seq<u32>, carry: u32)
    requires |x| == 16 && |q| == 9 && |p| == 8 && |d| == 8
    requires Val(x) < R512 && Val(q) == Val(x) * BARRETT / R512
    requires Val(p) == (Val(q[..8]) * Val(L_WORDS)) % R256
    requires Val(d + [carry]) == Val(x[..8]) + Val(Not(p)) + 1
    ensures Val(d) == Val(x) - Val(q) * L
    ensures 0 <= Val(x) - Val(q) * L < 2 * L
  {
    Constants();
    Weight8();
    BarrettBound(Val(x));
    ValSplit(x, 8);
    ValSplit(q, 8);
    NotVal8(p);
    CarryOut(d, carry);
    LowSubtract(Val(x), Val(x[..8]), Val(x[8..]), Val(q), Val(q[..8]), Val(q[8..]), Val(p), Val(d), carry);
  }

  /** crypto_eddsa_reduce. */
  method EddsaReduce(expanded: seq<u8>) returns (reduced: seq<u8>)
    requires |expanded| == 64
    ensures |reduced| == 32 && BytesVal(reduced) == BytesVal(expanded) % L
  {
    reduced := Reduce(LoadWords(expanded));
    LoadWordsVal(expanded);
  }

  /** crypto_eddsa_mul_add: (a * b + c) modulo L for any 256-bit inputs. */
  method EddsaMulAdd(a: seq<u8>, b: seq<u8>, c: seq<u8>) returns (r: seq<u8>)
    requires |a| == |b| == |c| == 32
    ensures |r| == 32 && BytesVal(r) == (BytesVal(a) * BytesVal(b) + BytesVal(c)) % L
  {
    var cw := LoadWords(c);
    var p := new u32[16](i => if 0 <= i < 8 then cw[i] else 0);
    assert p[..8] == cw;
    Multiply(p, LoadWords(a), LoadWords(b));
    r := Reduce(p[..]);
    LoadWordsVal(a);
    LoadWordsVal(b);
    LoadWordsVal(c);
  }
}
