/**
 * The Poly1305 one-time authenticator: 32-bit limbs with delayed carries, and the incremental
 * interface, against section 2.5 of RFC 8439.
 */
module Poly1305 {
  import opened Words
  import opened NatLemmas

  const P := 0x4_00000000_00000000_00000000_00000000 - 5
  const W2 := 0x1_00000000_00000000
  const W3 := 0x1_00000000_00000000_00000000
  const W4 := 0x1_00000000_00000000_00000000_00000000

  /** Section 2.5 of RFC 8439: absorb 16-byte blocks, each with a one bit set above its last byte. */
  function Accumulate(a: nat, m: seq<u8>, r: nat): nat
    decreases |m|
  {
    if m == [] then a
    else if |m| < 16 then ((a + BytesVal(m) + Pow256(|m|)) * r) % P
    else Accumulate(((a + BytesVal(m[..16]) + W4) * r) % P, m[16..], r)
  }

  /** The clamped multiplier, as words. */
  function Clamp(w: seq<u32>): (r: seq<u32>)
    requires |w| == 4
    ensures |r| == 4 && Clamped(r)
  {
    [w[0] % 0x1000_0000, w[1] % 0x1000_0000 / 4 * 4, w[2] % 0x1000_0000 / 4 * 4, w[3] % 0x1000_0000 / 4 * 4]
  }

  /** r <= 0ffffffc_0ffffffc_0ffffffc_0fffffff, with the low bits of the upper words clear. */
  predicate Clamped(r: seq<u32>)
  {
    |r| == 4 && r[0] <= 0x0fff_ffff && (forall i :: 1 <= i < 4 ==> r[i] <= 0x0fff_fffc && r[i] % 4 == 0)
  }

  /** The tag of a message under a 32-byte key. */
  function Tag(key: seq<u8>, m: seq<u8>): nat
    requires |key| == 32
  {
    var r, s := Val(Clamp(LoadWords(key[..16]))), BytesVal(key[16..]);
    (Accumulate(0, m, r) + s) % W4
  }

  lemma Val4(w: seq<u32>)
    requires |w| == 4
    ensures Val(w) == w[0] + W * w[1] + W2 * w[2] + W3 * w[3]
  {
    assert w[1..][1..] == w[2..] && w[2..][1..] == w[3..];
    assert Val(w[2..]) == w[2] + W * Val(w[3..]);
    assert Val(w[3..]) == w[3];
  }

  lemma Val5(w: seq<u32>)
    requires |w| == 5
    ensures Val(w) == w[0] + W * w[1] + W2 * w[2] + W3 * w[3] + W4 * w[4]
  {
    Val4(w[1..]);
  }

  /** Five limbs that the hash may have between blocks: at most 4_ffffffff_ffffffff_ffffffff_ffffffff. */
  predicate Bounded(h: seq<u32>)
  {
    |h| == 5 && h[4] <= 4
  }

  /** The limb products equal the integer product up to a multiple of 2^130 - 5. */
  lemma PolyIdentity(s0: int, s1: int, s2: int, s3: int, s4: int, q0: int, b: int, q1: int, q2: int, q3: int)
    ensures
      var r0, r1, r2, r3 := 4 * q0 + b, 4 * q1, 4 * q2, 4 * q3;
      var x0 := s0 * r0 + s1 * (5 * q3) + s2 * (5 * q2) + s3 * (5 * q1) + s4 * (5 * q0);
      var x1 := s0 * r1 + s1 * r0 + s2 * (5 * q3) + s3 * (5 * q2) + s4 * (5 * q1);
      var x2 := s0 * r2 + s1 * r1 + s2 * r0 + s3 * (5 * q3) + s4 * (5 * q2);
      var x3 := s0 * r3 + s1 * r2 + s2 * r1 + s3 * r0 + s4 * (5 * q3);
      var k := s1 * q3 + s2 * q2 + s3 * q1 + s4 * q0
               + 0x1_00000000 * (s2 * q3 + s3 * q2 + s4 * q1)
               + 0x1_00000000_00000000 * (s3 * q3 + s4 * q2)
               + 0x1_00000000_00000000_00000000 * (s4 * q3);
      (s0 + 0x1_00000000 * s1 + 0x1_00000000_00000000 * s2 + 0x1_00000000_00000000_00000000 * s3
         + 0x1_00000000_00000000_00000000_00000000 * s4)
      * (r0 + 0x1_00000000 * r1 + 0x1_00000000_00000000 * r2 + 0x1_00000000_00000000_00000000 * r3)
      == x0 + 0x1_00000000 * x1 + 0x1_00000000_00000000 * x2 + 0x1_00000000_00000000_00000000 * x3
         + 0x1_00000000_00000000_00000000_00000000 * (s4 * b)
         + (0x4_00000000_00000000_00000000_00000000 - 5) * k
  {
    var w, w2, w3, w4 := 0x1_00000000, 0x1_00000000_00000000, 0x1_00000000_00000000_00000000,
                         0x1_00000000_00000000_00000000_00000000;
    var r0, r1, r2, r3 := 4 * q0 + b, 4 * q1, 4 * q2, 4 * q3;
    Rows(s0, s1, s2, s3, s4, r0 + w * r1 + w2 * r2 + w3 * r3, w, w2, w3, w4);
    Row(s0, q0, b, q1, q2, q3, w, w2, w3);
    Row(s1, q0, b, q1, q2, q3, w, w2, w3);
    Row(s2, q0, b, q1, q2, q3, w, w2, w3);
    Row(s3, q0, b, q1, q2, q3, w, w2, w3);
    Row(s4, q0, b, q1, q2, q3, w, w2, w3);
  }

  lemma Rows(s0: int, s1: int, s2: int, s3: int, s4: int, r: int, w: int, w2: int, w3: int, w4: int)
    ensures (s0 + w * s1 + w2 * s2 + w3 * s3 + w4 * s4) * r
         == s0 * r + w * (s1 * r) + w2 * (s2 * r) + w3 * (s3 * r) + w4 * (s4 * r)
  {
  }

  /** One limb times the multiplier, in terms of the products that the columns are made of. */
  lemma Row(s: int, q0: int, b: int, q1: int, q2: int, q3: int, w: int, w2: int, w3: int)
    ensures s * (4 * q0 + b + w * (4 * q1) + w2 * (4 * q2) + w3 * (4 * q3))
         == 4 * (s * q0) + s * b + w * (4 * (s * q1)) + w2 * (4 * (s * q2)) + w3 * (4 * (s * q3))
    ensures s * (4 * q0 + b) == 4 * (s * q0) + s * b
    ensures s * (4 * q1) == 4 * (s * q1) && s * (4 * q2) == 4 * (s * q2) && s * (4 * q3) == 4 * (s * q3)
    ensures s * (5 * q0) == 5 * (s * q0) && s * (5 * q1) == 5 * (s * q1)
    ensures s * (5 * q2) == 5 * (s * q2) && s * (5 * q3) == 5 * (s * q3)
  {
  }

  lemma TopFits(s: nat, r: nat)
    requires s <= 5 && r <= 0x1400_0000
    ensures 0 <= s * r < 0x1_0000_0000
  {
    ProductIn(s, r, 5, 0x1400_0000);
  }

  lemma ProductIn(s: nat, r: nat, sMax: nat, rMax: nat)
    requires s <= sMax && r <= rMax
    ensures 0 <= s * r <= sMax * rMax
  {
    MulMono(s, r, sMax, rMax);
  }

  /** Five limb products added up fit 64 bits. */
  lemma DotFits(s0: nat, s1: nat, s2: nat, s3: nat, s4: nat, a: nat, b: nat, c: nat, d: nat, e: nat)
    requires s0 <= 0x1_ffff_fffe && s1 <= 0x1_ffff_fffe && s2 <= 0x1_ffff_fffe && s3 <= 0x1_ffff_fffe && s4 <= 5
    requires a <= 0x13ff_fffb && b <= 0x13ff_fffb && c <= 0x13ff_fffb && d <= 0x13ff_fffb && e <= 0x13ff_fffb
    ensures 0 <= s0 * a + s1 * b + s2 * c + s3 * d + s4 * e < 0x1_0000_0000_0000_0000
  {
    ProductIn(s0, a, 0x1_ffff_fffe, 0x13ff_fffb);
    ProductIn(s1, b, 0x1_ffff_fffe, 0x13ff_fffb);
    ProductIn(s2, c, 0x1_ffff_fffe, 0x13ff_fffb);
    ProductIn(s3, d, 0x1_ffff_fffe, 0x13ff_fffb);
    ProductIn(s4, e, 5, 0x13ff_fffb);
  }

  /** The top column uses only the plain multipliers, so its upper half stays below 2^31. */
  lemma TopColumn(s0: nat, s1: nat, s2: nat, s3: nat, s4: nat, r3: nat, r2: nat, r1: nat, r0: nat, e: nat)
    requires s0 <= 0x1_ffff_fffe && s1 <= 0x1_ffff_fffe && s2 <= 0x1_ffff_fffe && s3 <= 0x1_ffff_fffe && s4 <= 5
    requires r3 <= 0x0fff_fffc && r2 <= 0x0fff_fffc && r1 <= 0x0fff_fffc && r0 <= 0x0fff_ffff && e <= 0x13ff_fffb
    ensures 0 <= (s0 * r3 + s1 * r2 + s2 * r1 + s3 * r0 + s4 * e) / W <= 0x7fff_ffe5
  {
    ProductIn(s0, r3, 0x1_ffff_fffe, 0x0fff_fffc);
    ProductIn(s1, r2, 0x1_ffff_fffe, 0x0fff_fffc);
    ProductIn(s2, r1, 0x1_ffff_fffe, 0x0fff_fffc);
    ProductIn(s3, r0, 0x1_ffff_fffe, 0x0fff_ffff);
    ProductIn(s4, e, 5, 0x13ff_fffb);
  }

  /** One column after carry propagation, as a limb and a carry. */
  lemma CarryAlg(x0: int, x1: int, x2: int, x3: int, x4: int, u0: int, u1: int, u2: int, u3: int, u4: int, u5: int)
    requires u5 == x3 / W + x4
    requires u0 == u5 / 4 * 5 + x0 % W
    requires u1 == u0 / W + x1 % W + x0 / W
    requires u2 == u1 / W + x2 % W + x1 / W
    requires u3 == u2 / W + x3 % W + x2 / W
    requires u4 == u3 / W + u5 % 4
    ensures x0 + W * x1 + W2 * x2 + W3 * x3 + W4 * x4
         == (u0 % W) + W * (u1 % W) + W2 * (u2 % W) + W3 * (u3 % W) + W4 * u4 + P * (u5 / 4)
  {
  }

  /** The multiplication of one block, in integers modulo 2^130 - 5. */
  lemma BlockAlg(s0: int, s1: int, s2: int, s3: int, s4: int, r0: int, r1: int, r2: int, r3: int,
                 x: int, s: int, r: int, h: int, m: int)
    requires r1 % 4 == 0 && r2 % 4 == 0 && r3 % 4 == 0
    requires x == (s0 * r0 + s1 * (5 * (r3 / 4)) + s2 * (5 * (r2 / 4)) + s3 * (5 * (r1 / 4)) + s4 * (5 * (r0 / 4)))
        + W * (s0 * r1 + s1 * r0 + s2 * (5 * (r3 / 4)) + s3 * (5 * (r2 / 4)) + s4 * (5 * (r1 / 4)))
        + W2 * (s0 * r2 + s1 * r1 + s2 * r0 + s3 * (5 * (r3 / 4)) + s4 * (5 * (r2 / 4)))
        + W3 * (s0 * r3 + s1 * r2 + s2 * r1 + s3 * r0 + s4 * (5 * (r3 / 4)))
        + W4 * (s4 * (r0 % 4))
    requires s == s0 + W * s1 + W2 * s2 + W3 * s3 + W4 * s4
    requires r == r0 + W * r1 + W2 * r2 + W3 * r3
    requires x == h + P * m
    ensures h % P == (s * r) % P
  {
    var q0, q1, q2, q3 := r0 / 4, r1 / 4, r2 / 4, r3 / 4;
    assert r0 == 4 * q0 + r0 % 4 && r1 == 4 * q1 && r2 == 4 * q2 && r3 == 4 * q3;
    PolyIdentity(s0, s1, s2, s3, s4, q0, r0 % 4, q1, q2, q3);
    var k := s1 * q3 + s2 * q2 + s3 * q1 + s4 * q0 + W * (s2 * q3 + s3 * q2 + s4 * q1)
             + W2 * (s3 * q3 + s4 * q2) + W3 * (s4 * q3);
    assert s * r == h + P * (m + k);
    ModAddMul(h, m + k, P);
  }

  /** The columns as the source computes them, with the multipliers rr_i = 5 * (r_i / 4). */
  lemma Columns(s0: int, s1: int, s2: int, s3: int, s4: int, r0: int, r1: int, r2: int, r3: int,
                rr0: int, rr1: int, rr2: int, rr3: int, rr4: int,
                x0: int, x1: int, x2: int, x3: int, x4: int, s: int, r: int, h: int, m: int)
    requires r1 % 4 == 0 && r2 % 4 == 0 && r3 % 4 == 0 && rr4 == r0 % 4
    requires rr0 == r0 / 4 * 5 && rr1 == r1 / 4 + r1 && rr2 == r2 / 4 + r2 && rr3 == r3 / 4 + r3
    requires x0 == s0 * r0 + s1 * rr3 + s2 * rr2 + s3 * rr1 + s4 * rr0
    requires x1 == s0 * r1 + s1 * r0 + s2 * rr3 + s3 * rr2 + s4 * rr1
    requires x2 == s0 * r2 + s1 * r1 + s2 * r0 + s3 * rr3 + s4 * rr2
    requires x3 == s0 * r3 + s1 * r2 + s2 * r1 + s3 * r0 + s4 * rr3
    requires x4 == s4 * rr4
    requires s == s0 + W * s1 + W2 * s2 + W3 * s3 + W4 * s4
    requires r == r0 + W * r1 + W2 * r2 + W3 * r3
    requires x0 + W * x1 + W2 * x2 + W3 * x3 + W4 * x4 == h + P * m
    ensures h % P == (s * r) % P
  {
    assert rr1 == 5 * (r1 / 4) && rr2 == 5 * (r2 / 4) && rr3 == 5 * (r3 / 4) && rr0 == 5 * (r0 / 4);
    BlockAlg(s0, s1, s2, s3, s4, r0, r1, r2, r3, h + P * m, s, r, h, m);
  }

  /**
   * One iteration of poly_blocks: h = (h + c + end * 2^128) * r, partially reduced. Every local is
   * declared with the width it has in the source, so each assignment proves that nothing overflows.
   */
  method BlockStep(h: seq<u32>, r: seq<u32>, c: seq<u32>, end: u32) returns (h': seq<u32>)
    requires Bounded(h) && Clamped(r) && |c| == 4 && end <= 1
    ensures Bounded(h')
    ensures Val(h') % P == ((Val(h) + Val(c) + end * W4) * Val(r)) % P
  {
    var r0, r1, r2, r3 := r[0], r[1], r[2], r[3];
    assert r1 <= 0x0fff_fffc && r1 % 4 == 0 && r2 <= 0x0fff_fffc && r2 % 4 == 0 && r3 <= 0x0fff_fffc && r3 % 4 == 0;
    var rr0: u32 := r0 / 4 * 5;
    var rr1: u32 := r1 / 4 + r1;
    var rr2: u32 := r2 / 4 + r2;
    var rr3: u32 := r3 / 4 + r3;
    var rr4: u32 := r0 % 4;

    var s0: u64 := (h[0] as u64) + c[0];
    var s1: u64 := (h[1] as u64) + c[1];
    var s2: u64 := (h[2] as u64) + c[2];
    var s3: u64 := (h[3] as u64) + c[3];
    var s4: u32 := h[4] + end;

    DotFits(s0, s1, s2, s3, s4, r0, rr3, rr2, rr1, rr0);
    DotFits(s0, s1, s2, s3, s4, r1, r0, rr3, rr2, rr1);
    DotFits(s0, s1, s2, s3, s4, r2, r1, r0, rr3, rr2);
    DotFits(s0, s1, s2, s3, s4, r3, r2, r1, r0, rr3);
    TopColumn(s0, s1, s2, s3, s4, r3, r2, r1, r0, rr3);
    ProductIn(s4, rr4, 5, 3);
    TopFits(s4, rr0);
    TopFits(s4, rr1);
    TopFits(s4, rr2);
    TopFits(s4, rr3);
    var t0: u32, t1: u32, t2: u32, t3: u32 := s4 * rr0, s4 * rr1, s4 * rr2, s4 * rr3; // 32-bit products in the source
    var x0: u64 := s0 * r0 + s1 * rr3 + s2 * rr2 + s3 * rr1 + t0;
    var x1: u64 := s0 * r1 + s1 * r0 + s2 * rr3 + s3 * rr2 + t1;
    var x2: u64 := s0 * r2 + s1 * r1 + s2 * r0 + s3 * rr3 + t2;
    var x3: u64 := s0 * r3 + s1 * r2 + s2 * r1 + s3 * r0 + t3;
    var x4: u32 := s4 * rr4;

    h' := Propagate(x0, x1, x2, x3, x4);
    ghost var m :| Val(h') + P * m == x0 + W * x1 + W2 * x2 + W3 * x3 + W4 * x4;
    Val5(h);
    Val4(c);
    Val4(r);
    Columns(s0, s1, s2, s3, s4, r0, r1, r2, r3, rr0, rr1, rr2, rr3, rr4, x0, x1, x2, x3, x4,
            Val(h) + Val(c) + end * W4, Val(r), Val(h'), m);
  }

  /** Partial reduction modulo 2^130 - 5 of five columns. */
  method Propagate(x0: u64, x1: u64, x2: u64, x3: u64, x4: u32) returns (h: seq<u32>)
    requires x3 / W <= 0x7fff_ffe5 && x4 <= 15
    ensures Bounded(h)
    ensures exists m: int :: Val(h) + P * m == x0 + W * x1 + W2 * x2 + W3 * x3 + W4 * x4
  {
    var u5: u32 := x3 / W + x4;
    assert u5 <= 0x7fff_fff5;
    var u5times5: u32 := u5 / 4 * 5;
    var u0: u64 := u5times5 + x0 % W;
    var u1: u64 := u0 / W + x1 % W + x0 / W;
    var u2: u64 := u1 / W + x2 % W + x1 / W;
    var u3: u64 := u2 / W + x3 % W + x2 / W;
    var u4: u32 := u3 / W + u5 % 4;
    h := [u0 % W, u1 % W, u2 % W, u3 % W, u4];
    Val5(h);
    CarryAlg(x0, x1, x2, x3, x4, u0, u1, u2, u3, u4, u5);
    assert Val(h) + P * (u5 / 4) == x0 + W * x1 + W2 * x2 + W3 * x3 + W4 * x4;
  }

  lemma AccumulateStep(h: nat, m: seq<u8>, r: nat, h': nat)
    requires |m| >= 16
    requires h' % P == ((h + BytesVal(m[..16]) + W4) * r) % P
    ensures Accumulate(h % P, m, r) == Accumulate(h' % P, m[16..], r)
  {
    ModAddMulNoop(h, BytesVal(m[..16]) + W4, r, P);
    assert h % P + (BytesVal(m[..16]) + W4) == h % P + BytesVal(m[..16]) + W4;
  }

  /** poly_blocks with end = 1: absorb whole blocks. */
  method PolyBlocks(h: seq<u32>, r: seq<u32>, input: seq<u8>) returns (h': seq<u32>)
    requires Bounded(h) && Clamped(r) && |input| % 16 == 0
    ensures Bounded(h')
    ensures Val(h') % P == Accumulate(Val(h) % P, input, Val(r))
  {
    h' := h;
    for i := 0 to |input| / 16
      invariant Bounded(h')
      invariant Accumulate(Val(h') % P, input[16 * i..], Val(r)) == Accumulate(Val(h) % P, input, Val(r))
    {
      ghost var a, m := Val(h'), input[16 * i..];
      var block := input[16 * i..16 * i + 16];
      assert m[..16] == block && m[16..] == input[16 * (i + 1)..];
      h' := BlockStep(h', r, LoadWords(block), 1);
      LoadWordsVal(block);
      AccumulateStep(a, m, Val(r), Val(h'));
    }
  }

  /** Whole blocks can be absorbed before the rest. */
  lemma {:induction false} AccumulateSplit(a: nat, m: seq<u8>, n: seq<u8>, r: nat)
    requires |m| % 16 == 0
    ensures Accumulate(a, m + n, r) == Accumulate(Accumulate(a, m, r), n, r)
    decreases |m|
  {
    if m == [] {
      assert m + n == n;
    } else {
      AccumulateSplit(((a + BytesVal(m[..16]) + W4) * r) % P, m[16..], n, r);
      assert (m + n)[..16] == m[..16] && (m + n)[16..] == m[16..] + n;
    }
  }

  /** Blocks multiplied in after done extend the message by input. */
  lemma AbsorbBlocks(h: nat, h': nat, done: seq<u8>, input: seq<u8>, r: nat)
    requires |done| % 16 == 0 && |input| % 16 == 0
    requires h % P == Accumulate(0, done, r) && h' % P == Accumulate(h % P, input, r)
    ensures |done + input| % 16 == 0 && h' % P == Accumulate(0, done + input, r)
  {
    hide Accumulate;
    AccumulateSplit(0, done, input, r);
  }

  /** The zero-padded last block, with its one bit moved down, has the value section 2.5 asks for. */
  lemma {:induction false} LastBlock(tail: seq<u8>, n: nat)
    ensures BytesVal(tail + [1] + seq(n, i => 0)) == BytesVal(tail) + Pow256(|tail|)
  {
    var z: seq<u8> := seq(n, i => 0);
    if tail == [] {
      assert (tail + [1] + z)[1..] == z;
      ZeroBytes(z);
    } else {
      LastBlock(tail[1..], n);
      assert (tail + [1] + z)[1..] == tail[1..] + [1] + z;
    }
  }

  lemma {:induction false} ZeroBytes(z: seq<u8>)
    requires forall i :: 0 <= i < |z| ==> z[i] == 0
    ensures BytesVal(z) == 0
  {
    if z != [] { ZeroBytes(z[1..]); }
  }

  /** The final carry chain: adding 5 * floor((h + 5) / 2^130) subtracts the modulus when h reaches it. */
  lemma FinalReduction(h: int, c: int)
    requires 0 <= h < 5 * W4 && c == (h + 5) / W4 / 4
    ensures c == (if h >= P then 1 else 0)
    ensures (h + 5 * c) % W4 == (h % P) % W4
  {
    if h >= P {
      assert h % P == h - P;
    }
  }

  /** How many bytes are missing to the next multiple of 16. */
  function Gap16(x: nat): (g: nat)
    ensures g < 16 && (x + g) % 16 == 0
  {
    (16 - x % 16) % 16
  }

  lemma Weight4()
    ensures Weight(4) == W4
  {
    assert Weight(2) == W2;
    WeightSplit(2, 2);
  }

  lemma SumAndCarry(lo: seq<u32>, c: u32)
    requires |lo| == 4
    ensures Val(lo + [c]) == Val(lo) + W4 * c && Val(lo) < W4
  {
    ValSnoc(lo, c);
    ValBound(lo);
    Weight4();
  }

  /** How many times the modulus has to be subtracted from h: the carry of h + 5 above bit 130. */
  method Excess(h: seq<u32>) returns (q: u32)
    requires Bounded(h)
    ensures q == (Val(h) + 5) / W4 / 4
  {
    var c: u64 := 5;
    var zeros: seq<u32> := [0, 0, 0, 0];
    ghost var lo: seq<u32> := [];
    for i := 0 to 4
      invariant |lo| == i && c <= 5
      invariant Val(lo + [c]) == Val(h[..i]) + Val(zeros[..i]) + 5
    {
      ghost var c0 := c;
      var t: u64 := c + h[i];
      c := t / W;
      AddStep(lo, c0, h[..i], h[i], zeros[..i], 0, 5, t);
      assert h[..i + 1] == h[..i] + [h[i]];
      assert zeros[..i + 1] == zeros[..i] + [0];
      lo := lo + [t % W];
    }
    assert zeros[..4] == zeros;
    Val4(zeros);
    ExcessAlg(h, lo, c);
    c := c + h[4];
    q := c / 4;
  }

  lemma ExcessAlg(h: seq<u32>, lo: seq<u32>, c: u32)
    requires |h| == 5 && |lo| == 4 && Val(lo + [c]) == Val(h[..4]) + 5
    ensures c + h[4] == (Val(h) + 5) / W4
  {
    SumAndCarry(lo, c);
    SumAndCarry(h[..4], h[4]);
    assert h == h[..4] + [h[4]];
  }

  /** The four words of h + pad + c modulo 2^128. */
  method AddPad(h: seq<u32>, pad: seq<u32>, cin: u32) returns (mac: seq<u32>)
    requires |h| == 5 && |pad| == 4 && cin <= 5
    ensures |mac| == 4 && Val(mac) == (Val(h) + cin + Val(pad)) % W4
  {
    var c: u64 := cin;
    mac := [];
    for i := 0 to 4
      invariant |mac| == i && c <= 5
      invariant Val(mac + [c]) == Val(h[..i]) + Val(pad[..i]) + cin
    {
      ghost var c0 := c;
      var t: u64 := c + h[i] + pad[i];
      c := t / W;
      AddStep(mac, c0, h[..i], h[i], pad[..i], pad[i], cin, t);
      assert h[..i + 1] == h[..i] + [h[i]];
      assert pad[..i + 1] == pad[..i] + [pad[i]];
      mac := mac + [t % W];
    }
    assert pad[..4] == pad;
    SumAndCarry(mac, c);
    ValSnoc(h[..4], h[4]);
    assert h == h[..4] + [h[4]];
    Weight4();
    AddPadAlg(Val(mac), c, Val(h) + cin + Val(pad), h[4]);
  }

  lemma AddPadAlg(mac: int, c: int, sum: int, top: int)
    requires 0 <= mac < W4 && mac + W4 * c == sum - W4 * top
    ensures mac == sum % W4
  {
  }

  /** The incremental interface. */
  class Context {
    const c: array<u8>      // chunk of the message
    var cIdx: nat           // how many bytes are in the chunk
    var r: seq<u32>         // constant multiplier
    var pad: seq<u32>       // number added at the end
    var h: seq<u32>         // accumulated hash
    ghost var done: seq<u8> // the message bytes already multiplied into h

    /** The accumulator holds the polynomial of done. */
    ghost predicate Absorbed()
      reads this`h, this`r, this`done
    {
      |done| % 16 == 0 && Clamped(r) && Bounded(h) && Val(h) % P == Accumulate(0, done, Val(r))
    }

    ghost predicate Valid()
      reads this, c
    {
      c.Length == 16 && cIdx <= 16 && |pad| == 4 && Absorbed()
    }

    /** The message absorbed so far. */
    ghost function Message(): seq<u8>
      reads this, c
      requires Valid()
    {
      done + c[..cIdx]
    }

    constructor (key: seq<u8>)
      requires |key| == 32
      ensures Valid() && fresh(c) && Message() == [] && cIdx == 0
      ensures r == Clamp(LoadWords(key[..16])) && pad == LoadWords(key[16..])
    {
      h := [0, 0, 0, 0, 0];
      cIdx := 0;
      r := Clamp(LoadWords(key[..16]));
      pad := LoadWords(key[16..]);
      c := new u8[16](i => 0);
      done := [];
      new;
      Val5(h);
    }

    /** Copies bytes into the chunk. */
    method Fill(bytes: seq<u8>)
      requires Valid() && cIdx + |bytes| <= 16
      modifies this`cIdx, c
      ensures Valid() && cIdx == old(cIdx) + |bytes|
      ensures Message() == old(Message()) + bytes
    {
      hide Absorbed;
      for i := 0 to |bytes|
        invariant cIdx == old(cIdx) + i
        invariant c[..cIdx] == old(c[..cIdx]) + bytes[..i]
      {
        c[cIdx] := bytes[i];
        cIdx := cIdx + 1;
      }
    }

    /** Multiplies whole blocks of the message into the hash. */
    method Blocks(input: seq<u8>)
      requires Valid() && |input| % 16 == 0 && cIdx == 0
      modifies this`h, this`done
      ensures Valid() && Message() == old(Message()) + input
    {
      var h' := PolyBlocks(h, r, input);
      AbsorbBlocks(Val(h), Val(h'), done, input, Val(r));
      h, done := h', done + input;
    }

    /** A full chunk is multiplied in and emptied. */
    method Flush()
      requires Valid() && cIdx == 16
      modifies this`h, this`cIdx, this`done
      ensures Valid() && cIdx == 0 && Message() == old(Message())
    {
      var h' := PolyBlocks(h, r, c[..]);
      AbsorbBlocks(Val(h), Val(h'), done, c[..], Val(r));
      h, done, cIdx := h', done + c[..], 0;
    }

    /** Completes the chunk begun by an earlier call, as far as the message reaches. */
    method Align(message: seq<u8>) returns (aligned: nat)
      requires Valid() && cIdx < 16
      modifies this`h, this`cIdx, this`done, c
      ensures Valid() && aligned <= |message| && cIdx < 16 && (cIdx == 0 || aligned == |message|)
      ensures Message() == old(Message()) + message[..aligned]
    {
      hide Absorbed;
      var gap := Gap16(cIdx);
      aligned := if gap <= |message| then gap else |message|;
      Fill(message[..aligned]);
      if cIdx == 16 { Flush(); }
    }

    /** Whole blocks straight from the message, then the bytes that are left. */
    method Bulk(rest: seq<u8>)
      requires Valid() && cIdx < 16 && (cIdx == 0 || rest == [])
      modifies this`h, this`cIdx, this`done, c
      ensures Valid() && cIdx < 16 && Message() == old(Message()) + rest
    {
      hide Absorbed;
      var n := |rest| / 16 * 16;
      if n > 0 { Blocks(rest[..n]); }
      Fill(rest[n..]);
      assert rest == rest[..n] + rest[n..];
    }

    /** crypto_poly1305_update: only the bytes appended matter, not how they are split into calls. */
    method Update(message: seq<u8>)
      requires Valid() && cIdx < 16
      modifies this`h, this`cIdx, this`done, c
      ensures Valid() && cIdx < 16 && Message() == old(Message()) + message
    {
      hide Absorbed;
      if |message| == 0 { return; }
      var aligned := Align(message);
      Bulk(message[aligned..]);
      assert message == message[..aligned] + message[aligned..];
    }

    /** Pads the chunk with a one byte and zeros. */
    method PadChunk()
      requires c.Length == 16 && 0 < cIdx < 16
      modifies c
      ensures BytesVal(c[..]) == BytesVal(old(c[..cIdx])) + Pow256(cIdx)
    {
      ghost var tail := c[..cIdx];
      for i := cIdx to 16
        invariant c[..cIdx] == tail
        invariant forall k :: cIdx <= k < i ==> c[k] == 0
      {
        c[i] := 0;
      }
      c[cIdx] := 1;
      LastBlock(tail, 15 - cIdx);
      assert c[..] == tail + [1] + seq(15 - cIdx, i => 0);
    }

    /** Multiplies in the last, incomplete block if there is one. */
    method LastChunk()
      requires Valid() && cIdx < 16
      modifies this`h, c
      ensures Bounded(h) && Val(h) % P == Accumulate(0, old(Message()), Val(r))
    {
      ghost var tail := c[..cIdx];
      AccumulateSplit(0, done, tail, Val(r));
      if cIdx != 0 {
        PadChunk();
        LoadWordsVal(c[..]);
        ModAddMulNoop(Val(h), BytesVal(tail) + Pow256(cIdx), Val(r), P);
        h := BlockStep(h, r, LoadWords(c[..]), 0);
      }
    }

    /** crypto_poly1305_final: the tag of the whole message, as section 2.5 of RFC 8439 defines it. */
    method Final() returns (mac: seq<u8>)
      requires Valid() && cIdx < 16
      modifies this`h, c
      ensures |mac| == 16
      ensures BytesVal(mac) == (Accumulate(0, old(Message()), Val(r)) + Val(pad)) % W4
    {
      LastChunk();
      var q := Excess(h);
      HashBound(h);
      FinalReduction(Val(h), q);
      var words := AddPad(h, pad, q * 5);
      TagAlg(Val(h), 5 * q, Val(pad));
      mac := StoreWords(words);
      StoreWordsVal(words);
    }
  }

  /** crypto_poly1305: the one-shot form. */
  method Authenticate(message: seq<u8>, key: seq<u8>) returns (mac: seq<u8>)
    requires |key| == 32
    ensures |mac| == 16 && BytesVal(mac) == Tag(key, message)
  {
    var ctx := new Context(key);
    ctx.Update(message);
    assert ctx.Message() == message;
    mac := ctx.Final();
    LoadWordsVal(key[16..]);
  }

  lemma HashBound(h: seq<u32>)
    requires Bounded(h)
    ensures Val(h) < 5 * W4
  {
    Val5(h);
  }

  lemma TagAlg(h: int, c: int, pad: int)
    requires (h + c) % W4 == (h % P) % W4
    ensures (h + c + pad) % W4 == (h % P + pad) % W4
  {
    AddMod(h + c, h % P, pad, W4);
  }

  lemma AddMod(x: int, y: int, z: int, d: int)
    requires d > 0 && x % d == y % d
    ensures (x + z) % d == (y + z) % d
  {
    var k := x / d - y / d;
    assert x == y + k * d by {
      assert x == d * (x / d) + x % d && y == d * (y / d) + y % d;
      MulSub(d, x / d, y / d);
    }
    ModAddMul(y + z, k, d);
  }
}
