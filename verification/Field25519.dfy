/**
 * Arithmetic modulo 2^255 - 19 on ten signed limbs of alternately 26 and 25 bits. Every intermediate
 * value is declared with the width it has in the source, so verification shows that nothing overflows.
 */
module Field25519 {
  import opened Words
  import opened NatLemmas
  import ModL

  const Q := 0x7fffffffffffffffffffffffffffffffffffffffffffffffffffffffffffffed

  type i32 = x: int | -0x8000_0000 <= x < 0x8000_0000
  type i64 = x: int | -0x8000_0000_0000_0000 <= x < 0x8000_0000_0000_0000

  datatype Fe = Fe(l0: int, l1: int, l2: int, l3: int, l4: int, l5: int, l6: int, l7: int, l8: int, l9: int) {
    /** The integer ten limbs stand for. */
    function Value(): int
    {
      l0 + 0x4000000 * l1 + 0x8000000000000 * l2 + 0x20000000000000000000 * l3
      + 0x40000000000000000000000000 * l4 + 0x100000000000000000000000000000000 * l5
      + 0x200000000000000000000000000000000000000 * l6 + 0x800000000000000000000000000000000000000000000 * l7
      + 0x1000000000000000000000000000000000000000000000000000 * l8
      + 0x4000000000000000000000000000000000000000000000000000000000 * l9
    }

    /** Even limbs within e, odd limbs within o. */
    predicate Within(e: int, o: int)
    {
      -e <= l0 <= e && -o <= l1 <= o && -e <= l2 <= e && -o <= l3 <= o && -e <= l4 <= e &&
      -o <= l5 <= o && -e <= l6 <= e && -o <= l7 <= o && -e <= l8 <= e && -o <= l9 <= o
    }

    /** What FE_CARRY leaves: even limbs below 1.1 * 2^25, odd limbs below 1.1 * 2^24. */
    predicate Tight() { Within(36909875, 18454937) }

    /** What a multiplication accepts: even limbs below 1.65 * 2^26, odd limbs below 1.65 * 2^25. */
    predicate Loose() { Within(110729625, 55364812) }
  }

  /** The carry out of a 26-bit limb, rounded to the nearest. */
  function Round26(t: int): (c: int)
    ensures -0x2000000 <= t - c * 0x4000000 < 0x2000000
  {
    (t + 0x2000000) / 0x4000000
  }

  /** The carry out of a 25-bit limb, rounded to the nearest. */
  function Round25(t: int): (c: int)
    ensures -0x1000000 <= t - c * 0x2000000 < 0x1000000
  {
    (t + 0x1000000) / 0x2000000
  }

  /** Column sums that FE_CARRY can propagate without overflow. */
  predicate Carriable(t: Fe)
  {
    -0x8000_0000_0000_0000 <= t.l0 < 0x8000_0000_0000_0000 - 0x2000000 &&
    t.(l0 := 0).Within(0x4000_0000_0000_0000 - 1, 0x4000_0000_0000_0000 - 1)
  }

  /** The first half of FE_CARRY, on unbounded integers. */
  function HalfCarried(t: Fe): Fe
  {
    var c0, c4 := Round26(t.l0), Round26(t.l4);
    var c1, c5 := Round25(t.l1 + c0), Round25(t.l5 + c4);
    var c2, c6 := Round26(t.l2 + c1), Round26(t.l6 + c5);
    t.(l0 := t.l0 - c0 * 0x4000000, l1 := t.l1 + c0 - c1 * 0x2000000, l2 := t.l2 + c1 - c2 * 0x4000000,
       l3 := t.l3 + c2,
       l4 := t.l4 - c4 * 0x4000000, l5 := t.l5 + c4 - c5 * 0x2000000, l6 := t.l6 + c5 - c6 * 0x4000000,
       l7 := t.l7 + c6)
  }

  /** The second half. */
  function HighCarried(t: Fe): Fe
  {
    var c3, c7 := Round25(t.l3), Round25(t.l7);
    var c4, c8 := Round26(t.l4 + c3), Round26(t.l8 + c7);
    var c9 := Round25(t.l9 + c8);
    var c0 := Round26(t.l0 + c9 * 19);
    Fe(t.l0 + c9 * 19 - c0 * 0x4000000, t.l1 + c0, t.l2, t.l3 - c3 * 0x2000000, t.l4 + c3 - c4 * 0x4000000,
       t.l5 + c4, t.l6, t.l7 - c7 * 0x2000000, t.l8 + c7 - c8 * 0x4000000, t.l9 + c8 - c9 * 0x2000000)
  }

  /** FE_CARRY on unbounded integers. */
  function Carried(t: Fe): Fe { HighCarried(HalfCarried(t)) }

  /** Limbs after the first half: those already final are small, the others still fit 64 bits. */
  predicate HalfWay(t: Fe)
  {
    t.(l3 := 0, l7 := 0, l8 := 0, l9 := 0).Within(0x2000000, 0x1000000) &&
    t.Within(0x4000_0020_0000_0000, 0x4000_0020_0000_0000)
  }

  lemma HalfCarry(t: Fe)
    ensures HalfCarried(t).Value() == t.Value()
    ensures Carriable(t) ==> HalfWay(HalfCarried(t))
  {
  }

  lemma HighCarryValue(t: Fe)
    ensures t.Value() == HighCarried(t).Value() + Q * Round25(t.l9 + Round26(t.l8 + Round25(t.l7)))
  {
  }

  lemma HighCarryResidue(t: Fe)
    ensures HighCarried(t).Value() % Q == t.Value() % Q
  {
    HighCarryValue(t);
    ModAddMul(HighCarried(t).Value(), Round25(t.l9 + Round26(t.l8 + Round25(t.l7))), Q);
  }

  lemma HighCarryTight(t: Fe)
    requires HalfWay(t)
    ensures HighCarried(t).Tight()
  {
  }

  /** The condition that the source documents for FE_CARRY. */
  predicate Documented(t: Fe)
  {
    -0x8000_0000_0000_0000 < t.l0 < 0x8000_0000_0000_0000 &&
    t.(l0 := 0).Within(0x4000_0000_0000_0000 - 1, 0x4000_0000_0000_0000 - 1)
  }

  predicate I64(x: int) { -0x8000_0000_0000_0000 <= x < 0x8000_0000_0000_0000 }

  /** One line fits: the rounding sum, what is taken away, and the limb that is carried into. */
  predicate Line26(t: int, next: int) { I64(t + 0x2000000) && I64(Round26(t) * 0x4000000) && I64(next + Round26(t)) }

  predicate Line25(t: int, next: int) { I64(t + 0x1000000) && I64(Round25(t) * 0x2000000) && I64(next + Round25(t)) }

  predicate LowFits(t: Fe)
  {
    var c0, c4 := Round26(t.l0), Round26(t.l4);
    var c1, c5 := Round25(t.l1 + c0), Round25(t.l5 + c4);
    Line26(t.l0, t.l1) && Line26(t.l4, t.l5) && Line25(t.l1 + c0, t.l2) && Line25(t.l5 + c4, t.l6) &&
    Line26(t.l2 + c1, t.l3) && Line26(t.l6 + c5, t.l7)
  }

  predicate HighFits(t: Fe)
  {
    var c3, c7 := Round25(t.l3), Round25(t.l7);
    var c4, c8 := Round26(t.l4 + c3), Round26(t.l8 + c7);
    var c9 := Round25(t.l9 + c8);
    Line25(t.l3, t.l4) && Line25(t.l7, t.l8) && Line26(t.l4 + c3, t.l5) && Line26(t.l8 + c7, t.l9) &&
    Line25(t.l9 + c8, 0) && I64(c9 * 19) && I64(t.l0 + c9 * 19) && Line26(t.l0 + c9 * 19, t.l1)
  }

  /** No value that FE_CARRY computes on the way leaves 64 bits. */
  predicate CarryFits(t: Fe) { LowFits(t) && HighFits(HalfCarried(t)) }

  /** Of the limbs that the source documents, FE_CARRY overflows exactly for the top 2^25 values of the first. */
  lemma CarryExact(t: Fe)
    requires Documented(t)
    ensures CarryFits(t) <==> t.l0 < 0x8000_0000_0000_0000 - 0x2000000
  {
    if t.l0 < 0x8000_0000_0000_0000 - 0x2000000 {
      hide HighFits, LowFits, HalfCarried, HalfWay;
      LowCarryFits(t);
      HalfCarry(t);
      HalfWayFits(HalfCarried(t));
    } else {
      hide HighFits, HalfCarried, Line25;
      assert !Line26(t.l0, t.l1);
    }
  }

  lemma LowCarryFits(t: Fe)
    requires Carriable(t)
    ensures LowFits(t)
  {
  }

  lemma HalfWayFits(t: Fe)
    requires HalfWay(t)
    ensures HighFits(t)
  {
  }

  /** A failing input. */
  lemma CarryOverflows() returns (t: Fe)
    ensures Documented(t) && !CarryFits(t)
  {
    t := Fe(0x7fff_ffff_ffff_ffff, 0, 0, 0, 0, 0, 0, 0, 0, 0);
    CarryExact(t);
  }

  /** One line of FE_CARRY out of a 26-bit limb: the rounding sum, its shift and both updates in 64 bits. */
  method Carry26(t: i64, next: i64) returns (t': i64, next': i64)
    requires t < 0x8000_0000_0000_0000 - 0x2000000 && Roomy(next)
    ensures t' == t - Round26(t) * 0x4000000 && next' == next + Round26(t)
  {
    var u: i64 := t + 0x2000000;
    var c: i64 := u / 0x4000000;
    var v: i64 := c * 0x4000000;
    t', next' := t - v, next + c;
  }

  /** The same out of a 25-bit limb. */
  method Carry25(t: i64, next: i64) returns (t': i64, next': i64)
    requires t < 0x8000_0000_0000_0000 - 0x1000000 && Roomy(next)
    ensures t' == t - Round25(t) * 0x2000000 && next' == next + Round25(t)
  {
    var u: i64 := t + 0x1000000;
    var c: i64 := u / 0x2000000;
    var v: i64 := c * 0x2000000;
    t', next' := t - v, next + c;
  }

  /** The line that wraps around: a carry out of limb 9 counts 19 times in limb 0. */
  method Carry9(t: i64, next: i64) returns (t': i64, next': i64)
    requires t < 0x8000_0000_0000_0000 - 0x1000000 && Roomy(next)
    ensures t' == t - Round25(t) * 0x2000000 && next' == next + Round25(t) * 19
  {
    var u: i64 := t + 0x1000000;
    var c: i64 := u / 0x2000000;
    var v: i64, w: i64 := c * 0x2000000, c * 19;
    t', next' := t - v, next + w;
  }

  /** Room for any carry that is added. */
  predicate Roomy(t: int) { -0x4000_0080_0000_0000 <= t <= 0x4000_0080_0000_0000 }

  method CarryLow(t: Fe) returns (h: Fe)
    requires Carriable(t)
    ensures h == HalfCarried(t)
  {
    var t0: i64, t1: i64, t2: i64, t3: i64, t4: i64 := t.l0, t.l1, t.l2, t.l3, t.l4;
    var t5: i64, t6: i64, t7: i64 := t.l5, t.l6, t.l7;
    t0, t1 := Carry26(t0, t1);
    t4, t5 := Carry26(t4, t5);
    t1, t2 := Carry25(t1, t2);
    t5, t6 := Carry25(t5, t6);
    t2, t3 := Carry26(t2, t3);
    t6, t7 := Carry26(t6, t7);
    h := Fe(t0, t1, t2, t3, t4, t5, t6, t7, t.l8, t.l9);
  }

  method CarryHigh(t: Fe) returns (h: Fe)
    requires HalfWay(t)
    ensures h == HighCarried(t)
  {
    var t0: i64, t1: i64, t3: i64, t4: i64, t5: i64, t7: i64, t8: i64, t9: i64 :=
      t.l0, t.l1, t.l3, t.l4, t.l5, t.l7, t.l8, t.l9;
    t3, t4 := Carry25(t3, t4);
    t7, t8 := Carry25(t7, t8);
    t4, t5 := Carry26(t4, t5);
    t8, t9 := Carry26(t8, t9);
    t9, t0 := Carry9(t9, t0);
    t0, t1 := Carry26(t0, t1);
    h := Fe(t0, t1, t.l2, t3, t4, t5, t.l6, t7, t8, t9);
  }

  /** FE_CARRY: the same residue with tight limbs, and no 64-bit overflow on the way. */
  method Carry(t: Fe) returns (h: Fe)
    requires Carriable(t)
    ensures h == Carried(t) && h.Tight()
    ensures h.Value() % Q == t.Value() % Q
  {
    HalfCarry(t);
    var u := CarryLow(t);
    HighCarryResidue(u);
    HighCarryTight(u);
    h := CarryHigh(u);
  }

  function Plus(u: Fe, v: Fe): Fe
  {
    Fe(u.l0 + v.l0, u.l1 + v.l1, u.l2 + v.l2, u.l3 + v.l3, u.l4 + v.l4,
       u.l5 + v.l5, u.l6 + v.l6, u.l7 + v.l7, u.l8 + v.l8, u.l9 + v.l9)
  }

  function Scale(a: int, v: Fe): Fe
  {
    Fe(a * v.l0, a * v.l1, a * v.l2, a * v.l3, a * v.l4, a * v.l5, a * v.l6, a * v.l7, a * v.l8, a * v.l9)
  }

  lemma ScaleValue(a: int, v: Fe)
    ensures Scale(a, v).Value() == a * v.Value()
  {
  }

  /** 2^26 times v, brought back to ten limbs. */
  function Shift26(v: Fe): Fe
  {
    Fe(38 * v.l9, v.l0, 2 * v.l1, v.l2, 2 * v.l3, v.l4, 2 * v.l5, v.l6, 2 * v.l7, v.l8)
  }

  /** 2^51 times v, brought back to ten limbs. */
  function Shift51(v: Fe): Fe
  {
    Fe(19 * v.l8, 19 * v.l9, v.l0, v.l1, v.l2, v.l3, v.l4, v.l5, v.l6, v.l7)
  }

  lemma Shift26Value(v: Fe)
    ensures 0x4000000 * v.Value() == Shift26(v).Value() + Q * (2 * v.l9)
  {
  }

  lemma Shift51Value(v: Fe)
    ensures 0x8000000000000 * v.Value() == Shift51(v).Value() + Q * (v.l8 + 0x4000000 * v.l9)
  {
  }

  /** (a + 2^26 * b) times g. */
  function PairRow(a: int, b: int, g: Fe): Fe { Plus(Scale(a, g), Scale(b, Shift26(g))) }

  lemma PairRowValue(a: int, b: int, g: Fe, gv: int)
    requires gv == g.Value()
    ensures (a + 0x4000000 * b) * gv == PairRow(a, b, g).Value() + Q * (2 * (b * g.l9))
  {
    ScaleValue(a, g);
    ScaleValue(b, Shift26(g));
    Shift26Value(g);
    PlusValue(Scale(a, g), Scale(b, Shift26(g)));
    PairAlg(a, b, gv, Shift26(g).Value(), g.l9, PairRow(a, b, g).Value());
  }

  lemma PairAlg(a: int, b: int, g: int, s: int, l9: int, r: int)
    requires 0x4000000 * g == s + Q * (2 * l9) && r == a * g + b * s
    ensures (a + 0x4000000 * b) * g == r + Q * (2 * (b * l9))
  {
    calc {
      (a + 0x4000000 * b) * g;
      a * g + b * (0x4000000 * g);
      a * g + b * (s + Q * (2 * l9));
      a * g + b * s + Q * (2 * (b * l9));
    }
  }

  /** The product by pairs of limbs: the upper six limbs of f, highest pair first. */
  function HornerHigh(f: Fe, g: Fe): Fe
  {
    Plus(PairRow(f.l4, f.l5, g), Shift51(Plus(PairRow(f.l6, f.l7, g), Shift51(PairRow(f.l8, f.l9, g)))))
  }

  /** The product by pairs of limbs. */
  function Horner(f: Fe, g: Fe): Fe
  {
    Plus(PairRow(f.l0, f.l1, g), Shift51(Plus(PairRow(f.l2, f.l3, g), Shift51(HornerHigh(f, g)))))
  }

  /** The number made of the upper six limbs. */
  function High(f: Fe): int
  {
    f.l4 + 0x4000000 * f.l5
    + 0x8000000000000 * (f.l6 + 0x4000000 * f.l7 + 0x8000000000000 * (f.l8 + 0x4000000 * f.l9))
  }

  lemma HighSplit(f: Fe)
    ensures f.Value()
         == f.l0 + 0x4000000 * f.l1 + 0x8000000000000 * (f.l2 + 0x4000000 * f.l3 + 0x8000000000000 * High(f))
  {
  }

  lemma StepAlg(p: int, x: int, y: int, g: int, row: int, k1: int, rest: int, k: int, shifted: int, k2: int,
                sum: int, k': int)
    requires p * g == row + Q * k1 && x * g == rest + Q * k && 0x8000000000000 * rest == shifted + Q * k2
    requires y == p + 0x8000000000000 * x && sum == row + shifted && k' == k1 + k2 + 0x8000000000000 * k
    ensures y * g == sum + Q * k'
  {
    assert y * g == p * g + 0x8000000000000 * (x * g);
  }

  lemma PlusValue(u: Fe, v: Fe)
    ensures Plus(u, v).Value() == u.Value() + v.Value()
  {
  }

  /** One Horner step: y = a + 2^26 * b + 2^51 * x. */
  lemma HornerStep(a: int, b: int, g: Fe, gv: int, rest: Fe, x: int, y: int, k: int) returns (k': int)
    requires gv == g.Value()
    requires x * gv == rest.Value() + Q * k
    requires y == a + 0x4000000 * b + 0x8000000000000 * x
    ensures y * gv == Plus(PairRow(a, b, g), Shift51(rest)).Value() + Q * k'
  {
    var row, shifted := PairRow(a, b, g), Shift51(rest);
    var k1, k2 := 2 * (b * g.l9), rest.l8 + 0x4000000 * rest.l9;
    PairRowValue(a, b, g, gv);
    Shift51Value(rest);
    PlusValue(row, shifted);
    k' := k1 + k2 + 0x8000000000000 * k;
    StepAlg(a + 0x4000000 * b, x, y, gv, row.Value(), k1, rest.Value(), k, shifted.Value(), k2,
            Plus(row, shifted).Value(), k');
  }

  lemma HornerHighValue(f: Fe, g: Fe) returns (k: int)
    ensures High(f) * g.Value() == HornerHigh(f, g).Value() + Q * k
  {
    var x4, r4 := f.l8 + 0x4000000 * f.l9, PairRow(f.l8, f.l9, g);
    var x3, r3 := f.l6 + 0x4000000 * f.l7 + 0x8000000000000 * x4, Plus(PairRow(f.l6, f.l7, g), Shift51(r4));
    PairRowValue(f.l8, f.l9, g, g.Value());
    k := HornerStep(f.l6, f.l7, g, g.Value(), r4, x4, x3, 2 * (f.l9 * g.l9));
    k := HornerStep(f.l4, f.l5, g, g.Value(), r3, x3, High(f), k);
  }

  lemma HornerValue(f: Fe, g: Fe) returns (k: int)
    ensures f.Value() * g.Value() == Horner(f, g).Value() + Q * k
  {
    k := HornerHighValue(f, g);
    var r2, x1 := HornerHigh(f, g), f.l2 + 0x4000000 * f.l3 + 0x8000000000000 * High(f);
    k := HornerStep(f.l2, f.l3, g, g.Value(), r2, High(f), x1, k);
    HighSplit(f);
    k := HornerStep(f.l0, f.l1, g, g.Value(), Plus(PairRow(f.l2, f.l3, g), Shift51(r2)), x1, f.Value(), k);
  }

  function Dot(a: Fe, b: Fe): int
  {
    a.l0 * b.l0 + a.l1 * b.l1 + a.l2 * b.l2 + a.l3 * b.l3 + a.l4 * b.l4
    + a.l5 * b.l5 + a.l6 * b.l6 + a.l7 * b.l7 + a.l8 * b.l8 + a.l9 * b.l9
  }

  /** Odd limbs doubled. */
  function OddDoubled(f: Fe): Fe
  {
    f.(l1 := 2 * f.l1, l3 := 2 * f.l3, l5 := 2 * f.l5, l7 := 2 * f.l7, l9 := 2 * f.l9)
  }

  /** The ten sums of products of fe_mul. */
  function MulColumns(f: Fe, g: Fe): Fe
  {
    var fe := OddDoubled(f);
    Fe(Dot(fe, Fe(g.l0, 19 * g.l9, 19 * g.l8, 19 * g.l7, 19 * g.l6, 19 * g.l5, 19 * g.l4, 19 * g.l3, 19 * g.l2,
                  19 * g.l1)),
       Dot(f, Fe(g.l1, g.l0, 19 * g.l9, 19 * g.l8, 19 * g.l7, 19 * g.l6, 19 * g.l5, 19 * g.l4, 19 * g.l3, 19 * g.l2)),
       Dot(fe, Fe(g.l2, g.l1, g.l0, 19 * g.l9, 19 * g.l8, 19 * g.l7, 19 * g.l6, 19 * g.l5, 19 * g.l4, 19 * g.l3)),
       Dot(f, Fe(g.l3, g.l2, g.l1, g.l0, 19 * g.l9, 19 * g.l8, 19 * g.l7, 19 * g.l6, 19 * g.l5, 19 * g.l4)),
       Dot(fe, Fe(g.l4, g.l3, g.l2, g.l1, g.l0, 19 * g.l9, 19 * g.l8, 19 * g.l7, 19 * g.l6, 19 * g.l5)),
       Dot(f, Fe(g.l5, g.l4, g.l3, g.l2, g.l1, g.l0, 19 * g.l9, 19 * g.l8, 19 * g.l7, 19 * g.l6)),
       Dot(fe, Fe(g.l6, g.l5, g.l4, g.l3, g.l2, g.l1, g.l0, 19 * g.l9, 19 * g.l8, 19 * g.l7)),
       Dot(f, Fe(g.l7, g.l6, g.l5, g.l4, g.l3, g.l2, g.l1, g.l0, 19 * g.l9, 19 * g.l8)),
       Dot(fe, Fe(g.l8, g.l7, g.l6, g.l5, g.l4, g.l3, g.l2, g.l1, g.l0, 19 * g.l9)),
       Dot(f, Fe(g.l9, g.l8, g.l7, g.l6, g.l5, g.l4, g.l3, g.l2, g.l1, g.l0)))
  }

  lemma LowColumns(f: Fe, g: Fe)
    ensures MulColumns(f, g).l0 == Horner(f, g).l0 && MulColumns(f, g).l1 == Horner(f, g).l1
    ensures MulColumns(f, g).l2 == Horner(f, g).l2 && MulColumns(f, g).l3 == Horner(f, g).l3
    ensures MulColumns(f, g).l4 == Horner(f, g).l4
  {
  }

  lemma HighColumns(f: Fe, g: Fe)
    ensures MulColumns(f, g).l5 == Horner(f, g).l5 && MulColumns(f, g).l6 == Horner(f, g).l6
    ensures MulColumns(f, g).l7 == Horner(f, g).l7 && MulColumns(f, g).l8 == Horner(f, g).l8
    ensures MulColumns(f, g).l9 == Horner(f, g).l9
  {
  }

  /** The columns of fe_mul represent the product modulo 2^255 - 19. */
  lemma MulColumnsValue(f: Fe, g: Fe)
    ensures MulColumns(f, g).Value() % Q == (f.Value() * g.Value()) % Q
  {
    LowColumns(f, g);
    HighColumns(f, g);
    assert MulColumns(f, g) == Horner(f, g);
    var k := HornerValue(f, g);
    ModAddMul(Horner(f, g).Value(), k, Q);
  }

  predicate AllI32(b: Fe) { b.Within(0x7fff_ffff, 0x7fff_ffff) }

  lemma AbsMul(x: int, y: int, xMax: int, yMax: int)
    requires -xMax <= x <= xMax && -yMax <= y <= yMax
    ensures -(xMax * yMax) <= x * y <= xMax * yMax
  {
    MulMono(if x < 0 then -x else x, if y < 0 then -y else y, xMax, yMax);
  }

  /** One more product of a column. */
  method MulAdd(t: i64, x: int, y: i32, ghost k: int) returns (r: i64)
    requires -110729625 <= x <= 110729625 && -0x7fff_ffff <= y && 0 <= k < 10
    requires -k * PRODUCT <= t <= k * PRODUCT
    ensures r == t + x * y && -(k + 1) * PRODUCT <= r <= (k + 1) * PRODUCT
  {
    AbsMul(x, y, 110729625, 0x7fff_ffff);
    var p: i64 := x * y;
    r := t + p;
  }

  /** The largest product of a column. */
  const PRODUCT := 110729625 * 0x7fff_ffff

  method Column(a: Fe, b: Fe) returns (t: i64)
    requires a.Within(110729625, 110729625) && AllI32(b)
    ensures t == Dot(a, b) && -0x4000_0000_0000_0000 < t < 0x4000_0000_0000_0000
  {
    t := MulAdd(0, a.l0, b.l0, 0);
    t := MulAdd(t, a.l1, b.l1, 1);
    t := MulAdd(t, a.l2, b.l2, 2);
    t := MulAdd(t, a.l3, b.l3, 3);
    t := MulAdd(t, a.l4, b.l4, 4);
    t := MulAdd(t, a.l5, b.l5, 5);
    t := MulAdd(t, a.l6, b.l6, 6);
    t := MulAdd(t, a.l7, b.l7, 7);
    t := MulAdd(t, a.l8, b.l8, 8);
    t := MulAdd(t, a.l9, b.l9, 9);
  }

  /** fe_mul: the product modulo 2^255 - 19, with tight limbs. */
  method Mul(f: Fe, g: Fe) returns (h: Fe)
    requires f.Loose() && g.Loose()
    ensures h == Carried(MulColumns(f, g)) && h.Tight()
    ensures h.Value() % Q == (f.Value() * g.Value()) % Q
  {
    var F1: i32, F3: i32, F5: i32, F7: i32, F9: i32 := f.l1 * 2, f.l3 * 2, f.l5 * 2, f.l7 * 2, f.l9 * 2;
    var G1: i32, G2: i32, G3: i32, G4: i32, G5: i32 := g.l1 * 19, g.l2 * 19, g.l3 * 19, g.l4 * 19, g.l5 * 19;
    var G6: i32, G7: i32, G8: i32, G9: i32 := g.l6 * 19, g.l7 * 19, g.l8 * 19, g.l9 * 19;
    var fe := Fe(f.l0, F1, f.l2, F3, f.l4, F5, f.l6, F7, f.l8, F9);
    var t0 := Column(fe, Fe(g.l0, G9, G8, G7, G6, G5, G4, G3, G2, G1));
    var t1 := Column(f, Fe(g.l1, g.l0, G9, G8, G7, G6, G5, G4, G3, G2));
    var t2 := Column(fe, Fe(g.l2, g.l1, g.l0, G9, G8, G7, G6, G5, G4, G3));
    var t3 := Column(f, Fe(g.l3, g.l2, g.l1, g.l0, G9, G8, G7, G6, G5, G4));
    var t4 := Column(fe, Fe(g.l4, g.l3, g.l2, g.l1, g.l0, G9, G8, G7, G6, G5));
    var t5 := Column(f, Fe(g.l5, g.l4, g.l3, g.l2, g.l1, g.l0, G9, G8, G7, G6));
    var t6 := Column(fe, Fe(g.l6, g.l5, g.l4, g.l3, g.l2, g.l1, g.l0, G9, G8, G7));
    var t7 := Column(f, Fe(g.l7, g.l6, g.l5, g.l4, g.l3, g.l2, g.l1, g.l0, G9, G8));
    var t8 := Column(fe, Fe(g.l8, g.l7, g.l6, g.l5, g.l4, g.l3, g.l2, g.l1, g.l0, G9));
    var t9 := Column(f, Fe(g.l9, g.l8, g.l7, g.l6, g.l5, g.l4, g.l3, g.l2, g.l1, g.l0));
    var t := Fe(t0, t1, t2, t3, t4, t5, t6, t7, t8, t9);
    assert t == MulColumns(f, g);
    h := Carry(t);
    MulColumnsValue(f, g);
  }

  /** A loose limb, or twice one. */
  type Limb = x: int | -221459250 <= x <= 221459250

  /** The ten sums of products of fe_sq, with equal products merged. */
  function SqColumns(f: Fe): Fe
  {
    var (f0_2, f1_2, f2_2, f3_2) := (f.l0 * 2, f.l1 * 2, f.l2 * 2, f.l3 * 2);
    var (f4_2, f5_2, f6_2, f7_2) := (f.l4 * 2, f.l5 * 2, f.l6 * 2, f.l7 * 2);
    var (f5_38, f6_19, f7_38, f8_19, f9_38) := (f.l5 * 38, f.l6 * 19, f.l7 * 38, f.l8 * 19, f.l9 * 38);
    Fe(f.l0 * f.l0 + f1_2 * f9_38 + f2_2 * f8_19 + f3_2 * f7_38 + f4_2 * f6_19 + f.l5 * f5_38,
       f0_2 * f.l1 + f.l2 * f9_38 + f3_2 * f8_19 + f.l4 * f7_38 + f5_2 * f6_19,
       f0_2 * f.l2 + f1_2 * f.l1 + f3_2 * f9_38 + f4_2 * f8_19 + f5_2 * f7_38 + f.l6 * f6_19,
       f0_2 * f.l3 + f1_2 * f.l2 + f.l4 * f9_38 + f5_2 * f8_19 + f.l6 * f7_38,
       f0_2 * f.l4 + f1_2 * f3_2 + f.l2 * f.l2 + f5_2 * f9_38 + f6_2 * f8_19 + f.l7 * f7_38,
       f0_2 * f.l5 + f1_2 * f.l4 + f2_2 * f.l3 + f.l6 * f9_38 + f7_2 * f8_19,
       f0_2 * f.l6 + f1_2 * f5_2 + f2_2 * f.l4 + f3_2 * f.l3 + f7_2 * f9_38 + f.l8 * f8_19,
       f0_2 * f.l7 + f1_2 * f.l6 + f2_2 * f.l5 + f3_2 * f.l4 + f.l8 * f9_38,
       f0_2 * f.l8 + f1_2 * f7_2 + f2_2 * f.l6 + f3_2 * f5_2 + f.l4 * f.l4 + f.l9 * f9_38,
       f0_2 * f.l9 + f1_2 * f.l8 + f2_2 * f.l7 + f3_2 * f.l6 + f.l4 * f5_2)
  }

  lemma FirstSqColumns(f: Fe)
    ensures SqColumns(f).l0 == MulColumns(f, f).l0 && SqColumns(f).l1 == MulColumns(f, f).l1
  {
  }

  lemma SecondSqColumns(f: Fe)
    ensures SqColumns(f).l2 == MulColumns(f, f).l2 && SqColumns(f).l3 == MulColumns(f, f).l3
  {
  }

  lemma ThirdSqColumns(f: Fe)
    ensures SqColumns(f).l4 == MulColumns(f, f).l4 && SqColumns(f).l5 == MulColumns(f, f).l5
  {
  }

  lemma FourthSqColumns(f: Fe)
    ensures SqColumns(f).l6 == MulColumns(f, f).l6 && SqColumns(f).l7 == MulColumns(f, f).l7
  {
  }

  lemma FifthSqColumns(f: Fe)
    ensures SqColumns(f).l8 == MulColumns(f, f).l8 && SqColumns(f).l9 == MulColumns(f, f).l9
  {
  }

  /** fe_sq computes the same columns as fe_mul of a number with itself. */
  lemma SqColumnsAreMul(f: Fe)
    ensures SqColumns(f) == MulColumns(f, f)
  {
    FirstSqColumns(f);
    SecondSqColumns(f);
    ThirdSqColumns(f);
    FourthSqColumns(f);
    FifthSqColumns(f);
  }

  /** One more product of a square's column. */
  method SqAdd(t: i64, x: Limb, y: i32, ghost k: int) returns (r: i64)
    requires 0 <= k < 6 && -k * SQ_PRODUCT <= t <= k * SQ_PRODUCT
    ensures r == t + x * y && -(k + 1) * SQ_PRODUCT <= r <= (k + 1) * SQ_PRODUCT
  {
    AbsMul(x, y, 221459250, 0x8000_0000);
    var p: i64 := x * y;
    r := t + p;
  }

  const SQ_PRODUCT := 221459250 * 0x8000_0000

  method Sum6(a0: Limb, b0: i32, a1: Limb, b1: i32, a2: Limb, b2: i32, a3: Limb, b3: i32, a4: Limb, b4: i32,
              a5: Limb, b5: i32) returns (t: i64)
    ensures t == a0 * b0 + a1 * b1 + a2 * b2 + a3 * b3 + a4 * b4 + a5 * b5
    ensures -0x4000_0000_0000_0000 < t < 0x4000_0000_0000_0000
  {
    t := SqAdd(0, a0, b0, 0);
    t := SqAdd(t, a1, b1, 1);
    t := SqAdd(t, a2, b2, 2);
    t := SqAdd(t, a3, b3, 3);
    t := SqAdd(t, a4, b4, 4);
    t := SqAdd(t, a5, b5, 5);
  }

  /** fe_sq: limb for limb the result of fe_mul(f, f). */
  method Sq(f: Fe) returns (h: Fe)
    requires f.Loose()
    ensures h == Carried(MulColumns(f, f)) && h.Tight()
    ensures h.Value() % Q == (f.Value() * f.Value()) % Q
  {
    var f0_2: i32, f1_2: i32, f2_2: i32, f3_2: i32 := f.l0 * 2, f.l1 * 2, f.l2 * 2, f.l3 * 2;
    var f4_2: i32, f5_2: i32, f6_2: i32, f7_2: i32 := f.l4 * 2, f.l5 * 2, f.l6 * 2, f.l7 * 2;
    var f5_38: i32, f6_19: i32, f7_38: i32, f8_19: i32, f9_38: i32 :=
      f.l5 * 38, f.l6 * 19, f.l7 * 38, f.l8 * 19, f.l9 * 38;
    var t0 := Sum6(f.l0, f.l0, f1_2, f9_38, f2_2, f8_19, f3_2, f7_38, f4_2, f6_19, f.l5, f5_38);
    var t1 := Sum6(f0_2, f.l1, f.l2, f9_38, f3_2, f8_19, f.l4, f7_38, f5_2, f6_19, 0, 0);
    var t2 := Sum6(f0_2, f.l2, f1_2, f.l1, f3_2, f9_38, f4_2, f8_19, f5_2, f7_38, f.l6, f6_19);
    var t3 := Sum6(f0_2, f.l3, f1_2, f.l2, f.l4, f9_38, f5_2, f8_19, f.l6, f7_38, 0, 0);
    var t4 := Sum6(f0_2, f.l4, f1_2, f3_2, f.l2, f.l2, f5_2, f9_38, f6_2, f8_19, f.l7, f7_38);
    var t5 := Sum6(f0_2, f.l5, f1_2, f.l4, f2_2, f.l3, f.l6, f9_38, f7_2, f8_19, 0, 0);
    var t6 := Sum6(f0_2, f.l6, f1_2, f5_2, f2_2, f.l4, f3_2, f.l3, f7_2, f9_38, f.l8, f8_19);
    var t7 := Sum6(f0_2, f.l7, f1_2, f.l6, f2_2, f.l5, f3_2, f.l4, f.l8, f9_38, 0, 0);
    var t8 := Sum6(f0_2, f.l8, f1_2, f7_2, f2_2, f.l6, f3_2, f5_2, f.l4, f.l4, f.l9, f9_38);
    var t9 := Sum6(f0_2, f.l9, f1_2, f.l8, f2_2, f.l7, f3_2, f.l6, f.l4, f5_2, 0, 0);
    var t := Fe(t0, t1, t2, t3, t4, t5, t6, t7, t8, t9);
    assert t == SqColumns(f);
    SqColumnsAreMul(f);
    h := Carry(t);
    MulColumnsValue(f, f);
  }

  /** The two nested rounding chains of fe_tobytes end with the sign of h: 0 or -1. */
  lemma SignChain(h: Fe, q0: int, q: int)
    requires h.Tight() && q0 == (19 * h.l9 + 0x1000000) / 0x2000000
    requires q == (h.Value() + q0) / 0x8000000000000000000000000000000000000000000000000000000000000000
    ensures q == if h.Value() >= 0 then 0 else -1
    ensures -Q < h.Value() < Q
  {
  }

  /** A chain of floor divisions is one floor division. */
  lemma FloorChain(h: Fe, q0: int, q1: int, q2: int, q3: int, q4: int, q5: int, q6: int, q7: int, q8: int,
                   q9: int, q10: int)
    requires q1 == (q0 + h.l0) / 0x4000000 && q2 == (q1 + h.l1) / 0x2000000
    requires q3 == (q2 + h.l2) / 0x4000000 && q4 == (q3 + h.l3) / 0x2000000
    requires q5 == (q4 + h.l4) / 0x4000000 && q6 == (q5 + h.l5) / 0x2000000
    requires q7 == (q6 + h.l6) / 0x4000000 && q8 == (q7 + h.l7) / 0x2000000
    requires q9 == (q8 + h.l8) / 0x4000000 && q10 == (q9 + h.l9) / 0x2000000
    ensures q10 == (h.Value() + q0) / 0x8000000000000000000000000000000000000000000000000000000000000000
    ensures h.Value() + q0 ==
      Fe((q0 + h.l0) % 0x4000000, (q1 + h.l1) % 0x2000000, (q2 + h.l2) % 0x4000000, (q3 + h.l3) % 0x2000000,
         (q4 + h.l4) % 0x4000000, (q5 + h.l5) % 0x2000000, (q6 + h.l6) % 0x4000000, (q7 + h.l7) % 0x2000000,
         (q8 + h.l8) % 0x4000000, (q9 + h.l9) % 0x2000000).Value()
      + 0x8000000000000000000000000000000000000000000000000000000000000000 * q10
  {
  }

  /** Limbs in their tight positive range. */
  predicate Positive(t: Fe)
  {
    0 <= t.l0 < 0x4000000 && 0 <= t.l1 < 0x2000000 && 0 <= t.l2 < 0x4000000 && 0 <= t.l3 < 0x2000000 &&
    0 <= t.l4 < 0x4000000 && 0 <= t.l5 < 0x2000000 && 0 <= t.l6 < 0x4000000 && 0 <= t.l7 < 0x2000000 &&
    0 <= t.l8 < 0x4000000 && 0 <= t.l9 < 0x2000000
  }

  /** One pass of rounding down through the limbs, starting with carry q: the limbs left and the last carry. */
  method Chain(h: Fe, q: i32) returns (t: Fe, top: i32)
    requires h.Tight() && -19 <= q <= 19
    ensures Positive(t)
    ensures top == (h.Value() + q) / 0x8000000000000000000000000000000000000000000000000000000000000000
    ensures h.Value() + q == t.Value() + 0x8000000000000000000000000000000000000000000000000000000000000000 * top
  {
    var q1: i32 := (q + h.l0) / 0x4000000;
    var q2: i32 := (q1 + h.l1) / 0x2000000;
    var q3: i32 := (q2 + h.l2) / 0x4000000;
    var q4: i32 := (q3 + h.l3) / 0x2000000;
    var q5: i32 := (q4 + h.l4) / 0x4000000;
    var q6: i32 := (q5 + h.l5) / 0x2000000;
    var q7: i32 := (q6 + h.l6) / 0x4000000;
    var q8: i32 := (q7 + h.l7) / 0x2000000;
    var q9: i32 := (q8 + h.l8) / 0x4000000;
    top := (q9 + h.l9) / 0x2000000;
    t := Fe(q + h.l0 - q1 * 0x4000000, q1 + h.l1 - q2 * 0x2000000, q2 + h.l2 - q3 * 0x4000000,
            q3 + h.l3 - q4 * 0x2000000, q4 + h.l4 - q5 * 0x4000000, q5 + h.l5 - q6 * 0x2000000,
            q6 + h.l6 - q7 * 0x4000000, q7 + h.l7 - q8 * 0x2000000, q8 + h.l8 - q9 * 0x4000000,
            q9 + h.l9 - top * 0x2000000);
    FloorChain(h, q, q1, q2, q3, q4, q5, q6, q7, q8, q9, top);
  }

  /** With q = -1 for a negative h and 0 otherwise, adding 19 * q and dropping bit 255 reduces h. */
  lemma Reduced(h: int, q: int, t: int, top: int)
    requires -Q < h < Q && q == (if h >= 0 then 0 else -1)
    requires h + 19 * q == t + 0x8000000000000000000000000000000000000000000000000000000000000000 * top
    requires 0 <= t < 0x8000000000000000000000000000000000000000000000000000000000000000
    ensures t == h % Q
  {
    assert top == q;
    DivModUnique(h, Q, q, t);
  }

  /** x | y for words without a common bit: x lies below bit k and y has no bit below it. */
  function OrFields(x: int, y: int, unit: int): u32
    requires 0 < unit && 0 <= x < unit && y % unit == 0 && 0 <= y && x + y < 0x1_0000_0000
  {
    x + y
  }

  /** The eight words fe_tobytes stores; the shifts to the left drop what leaves 32 bits. */
  function Pack(t: Fe): (w: seq<u32>)
    requires Positive(t)
    ensures |w| == 8
  {
    [OrFields(t.l0, t.l1 % 0x40 * 0x4000000, 0x4000000),
     OrFields(t.l1 / 0x40, t.l2 % 0x2000 * 0x80000, 0x80000),
     OrFields(t.l2 / 0x2000, t.l3 % 0x80000 * 0x2000, 0x2000),
     OrFields(t.l3 / 0x80000, t.l4 * 0x40, 0x40),
     OrFields(t.l5, t.l6 % 0x80 * 0x2000000, 0x2000000),
     OrFields(t.l6 / 0x80, t.l7 % 0x2000 * 0x80000, 0x80000),
     OrFields(t.l7 / 0x2000, t.l8 % 0x100000 * 0x1000, 0x1000),
     OrFields(t.l8 / 0x100000, t.l9 * 0x40, 0x40)]
  }

  lemma PackValue(t: Fe)
    requires Positive(t)
    ensures Val(Pack(t)) == t.Value()
    ensures 0 <= t.Value() < 0x8000000000000000000000000000000000000000000000000000000000000000
  {
    ModL.Val8(Pack(t));
  }

  /** fe_tobytes: the bytes of the one representative in [0, 2^255 - 19). */
  method ToBytes(h: Fe) returns (s: seq<u8>)
    requires h.Tight()
    ensures |s| == 32 && BytesVal(s) == h.Value() % Q
  {
    var product: i32 := 19 * h.l9;
    var q: i32 := (product + 0x1000000) / 0x2000000;
    var _, sign := Chain(h, q);
    SignChain(h, q, sign);
    var t, top := Chain(h, sign * 19);
    PackValue(t);
    Reduced(h.Value(), sign, t.Value(), top);
    s := StoreWords(Pack(t));
    StoreWordsVal(Pack(t));
  }

  function Load24(b: seq<u8>): (x: nat)
    requires |b| >= 3
    ensures x < 0x100_0000
  {
    (b[0] as nat) + 0x100 * (b[1] as nat) + 0x1_0000 * (b[2] as nat)
  }

  lemma Three(b: seq<u8>)
    requires |b| >= 3
    ensures BytesVal(b) == Load24(b) + 0x100_0000 * BytesVal(b[3..])
  {
    assert b[1..][1..] == b[2..] && b[2..][1..] == b[3..];
    assert BytesVal(b[1..]) == (b[1] as nat) + 0x100 * BytesVal(b[2..]);
    assert BytesVal(b[2..]) == (b[2] as nat) + 0x100 * BytesVal(b[3..]);
  }

  lemma Four(b: seq<u8>)
    requires |b| >= 4
    ensures BytesVal(b) == Load32(b[..4]) + 0x1_0000_0000 * BytesVal(b[4..])
  {
    Three(b);
    assert b[3..][1..] == b[4..];
    assert BytesVal(b[3..]) == (b[3] as nat) + 0x100 * BytesVal(b[4..]);
  }

  lemma DropDrop(s: seq<u8>, i: nat, n: nat)
    requires i + n <= |s|
    ensures s[i..][n..] == s[i + n..]
  {
  }

  /** The upper half of a 32-byte number, in the pieces fe_frombytes loads. */
  lemma UpperPieces(s: seq<u8>)
    requires |s| == 32
    ensures BytesVal(s[16..]) == Load32(s[16..20]) + 0x1_0000_0000 * (Load24(s[20..]) + 0x100_0000 * (Load24(s[23..])
      + 0x100_0000 * (Load24(s[26..]) + 0x100_0000 * Load24(s[29..]))))
  {
    Three(s[29..]);
    DropDrop(s, 26, 3); Three(s[26..]);
    DropDrop(s, 23, 3); Three(s[23..]);
    DropDrop(s, 20, 3); Three(s[20..]);
    DropDrop(s, 16, 4); Four(s[16..]);
    assert s[16..][..4] == s[16..20];
  }

  lemma LowerPieces(s: seq<u8>)
    requires |s| == 32
    ensures BytesVal(s) == Load32(s[..4]) + 0x1_0000_0000 * (Load24(s[4..]) + 0x100_0000 * (Load24(s[7..])
      + 0x100_0000 * (Load24(s[10..]) + 0x100_0000 * (Load24(s[13..]) + 0x100_0000 * BytesVal(s[16..])))))
  {
    DropDrop(s, 13, 3); Three(s[13..]);
    DropDrop(s, 10, 3); Three(s[10..]);
    DropDrop(s, 7, 3); Three(s[7..]);
    DropDrop(s, 4, 3); Three(s[4..]);
    Four(s);
  }

  /** fe_frombytes_mask: the number in s without its nbMask top bits, as tight limbs. */
  method FromBytes(s: seq<u8>, nbMask: nat) returns (h: Fe)
    requires |s| == 32 && (nbMask == 1 || nbMask == 2)
    ensures h.Tight()
    ensures var limit := if nbMask == 1 then 0x8000000000000000000000000000000000000000000000000000000000000000
                         else 0x4000000000000000000000000000000000000000000000000000000000000000;
            h.Value() % Q == BytesVal(s) % limit % Q
  {
    hide BytesVal;
    var mask := if nbMask == 1 then 0x80_0000 else 0x40_0000;
    var t := Fe(Load32(s[..4]), Load24(s[4..]) * 0x40, Load24(s[7..]) * 0x20, Load24(s[10..]) * 8, Load24(s[13..]) * 4,
                Load32(s[16..20]), Load24(s[20..]) * 0x80, Load24(s[23..]) * 0x20, Load24(s[26..]) * 0x10,
                Load24(s[29..]) % mask * 4);
    h := Carry(t);
    LowerPieces(s);
    UpperPieces(s);
    Masked(t, BytesVal(s), Load24(s[29..]), mask);
  }

  lemma Masked(t: Fe, v: int, top: int, mask: int)
    requires (mask == 0x80_0000 || mask == 0x40_0000) && 0 <= top
    requires t.l9 == top % mask * 4 && v == t.(l9 := top * 4).Value()
    requires 0 <= t.(l9 := 0).Value() < 0x10000000000000000000000000000000000000000000000000000000000
    ensures t.Value() == v % (mask * 0x10000000000000000000000000000000000000000000000000000000000)
  {
    var w := 0x10000000000000000000000000000000000000000000000000000000000;
    DivModUnique(v, mask * w, top / mask, t.Value());
  }

  /** The largest column 6 of limbs within e and o. */
  function ColumnSixMax(e: nat, o: nat): int { 23 * (e * e) + 82 * (o * o) }

  /** All limbs at their limits. */
  function Extreme(e: nat, o: nat): Fe { Fe(e, o, e, o, e, o, e, o, e, o) }

  lemma ColumnSixAttained(e: nat, o: nat)
    ensures Extreme(e, o).Within(e, o) && MulColumns(Extreme(e, o), Extreme(e, o)).l6 == ColumnSixMax(e, o)
  {
  }

  lemma ColumnSixBound(f: Fe, g: Fe, e: nat, o: nat)
    requires f.Within(e, o) && g.Within(e, o)
    ensures -ColumnSixMax(e, o) <= MulColumns(f, g).l6 <= ColumnSixMax(e, o)
  {
    hide MulColumns, Abs;
    AbsProduct(f.l0, g.l6, e);
    AbsProduct(f.l1, g.l5, o);
    AbsProduct(f.l2, g.l4, e);
    AbsProduct(f.l3, g.l3, o);
    AbsProduct(f.l4, g.l2, e);
    AbsProduct(f.l5, g.l1, o);
    AbsProduct(f.l6, g.l0, e);
    AbsProduct(f.l7, g.l9, o);
    AbsProduct(f.l8, g.l8, e);
    AbsProduct(f.l9, g.l7, o);
    ColumnSix(f, g);
    SixAlg(f.l0 * g.l6, f.l1 * g.l5, f.l2 * g.l4, f.l3 * g.l3, f.l4 * g.l2, f.l5 * g.l1, f.l6 * g.l0, f.l7 * g.l9,
           f.l8 * g.l8, f.l9 * g.l7, e * e, o * o, MulColumns(f, g).l6);
    assert ColumnSixMax(e, o) == 23 * (e * e) + 82 * (o * o);
  }

  predicate Abs(x: int, m: int) { -m <= x <= m }

  lemma AbsProduct(x: int, y: int, m: int)
    requires -m <= x <= m && -m <= y <= m
    ensures Abs(x * y, m * m)
  {
    AbsMul(x, y, m, m);
  }

  lemma SixAlg(p0: int, p1: int, p2: int, p3: int, p4: int, p5: int, p6: int, p7: int, p8: int, p9: int,
                e: int, o: int, t: int)
    requires Abs(p0, e) && Abs(p1, o) && Abs(p2, e) && Abs(p3, o) && Abs(p4, e) && Abs(p5, o)
    requires Abs(p6, e) && Abs(p7, o) && Abs(p8, e) && Abs(p9, o)
    requires t == p0 + 2 * p1 + p2 + 2 * p3 + p4 + 2 * p5 + p6 + 38 * p7 + 19 * p8 + 38 * p9
    ensures -(23 * e + 82 * o) <= t <= 23 * e + 82 * o
  {
  }

  lemma ColumnSix(f: Fe, g: Fe)
    ensures MulColumns(f, g).l6 == f.l0 * g.l6 + 2 * (f.l1 * g.l5) + f.l2 * g.l4 + 2 * (f.l3 * g.l3) + f.l4 * g.l2
                                   + 2 * (f.l5 * g.l1) + f.l6 * g.l0 + 38 * (f.l7 * g.l9) + 19 * (f.l8 * g.l8)
                                   + 38 * (f.l9 * g.l7)
  {
  }

  /** The comment in fe_mul on column 6: |t6| < 0.23 * 2^61. */
  predicate SixAsCommented(f: Fe, g: Fe)
  {
    -23 * 0x2000_0000_0000_0000 < 100 * MulColumns(f, g).l6 < 23 * 0x2000_0000_0000_0000
  }

  /** The comment holds for all limbs within e and o exactly if it holds for the largest ones. */
  lemma ColumnSixExact(e: nat, o: nat)
    ensures (forall f: Fe, g: Fe :: f.Within(e, o) && g.Within(e, o) ==> SixAsCommented(f, g))
            <==> 100 * ColumnSixMax(e, o) < 23 * 0x2000_0000_0000_0000
  {
    hide MulColumns, ColumnSixMax;
    var x := Extreme(e, o);
    ColumnSixAttained(e, o);
    assert SixAsCommented(x, x) ==> 100 * ColumnSixMax(e, o) < 23 * 0x2000_0000_0000_0000;
    if 100 * ColumnSixMax(e, o) < 23 * 0x2000_0000_0000_0000 {
      forall f: Fe, g: Fe | f.Within(e, o) && g.Within(e, o) ensures SixAsCommented(f, g) {
        ColumnSixBound(f, g, e, o);
      }
    }
  }

  /** The limbs that fe_mul documents are beyond that. */
  lemma ColumnSixBeyondComment()
    ensures Extreme(110729625, 55364812).Loose()
    ensures !SixAsCommented(Extreme(110729625, 55364812), Extreme(110729625, 55364812))
  {
    hide MulColumns;
    ColumnSixAttained(110729625, 55364812);
    assert ColumnSixMax(110729625, 55364812) == 23 * (110729625 * 110729625) + 82 * (55364812 * 55364812);
  }
}
