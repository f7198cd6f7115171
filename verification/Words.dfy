/** Fixed-width words as bounded naturals, and little-endian numbers made of 32-bit words. */
module Words {
  import opened NatLemmas

  type u8 = x: nat | x < 0x100
  type u32 = x: nat | x < 0x1_0000_0000
  type u64 = x: nat | x < 0x1_0000_0000_0000_0000

  const W := 0x1_0000_0000

  /** W to the power n: the weight of word n. */
  function Weight(n: nat): (w: nat)
    ensures w >= 1
  {
    if n == 0 then 1 else W * Weight(n - 1)
  }

  /** The number whose little-endian 32-bit words are s. */
  function Val(s: seq<u32>): (v: nat)
  {
    if s == [] then 0 else s[0] + W * Val(s[1..])
  }

  lemma {:induction false} WeightSplit(m: nat, n: nat)
    ensures Weight(m + n) == Weight(m) * Weight(n)
  {
    if m > 0 {
      WeightSplit(m - 1, n);
      MulAssoc(W, Weight(m - 1), Weight(n));
    }
  }

  lemma {:induction false} ValSplit(s: seq<u32>, n: nat)
    requires n <= |s|
    ensures Val(s) == Val(s[..n]) + Weight(n) * Val(s[n..])
  {
    if n > 0 {
      ValSplit(s[1..], n - 1);
      assert s[1..][..n - 1] == s[..n][1..];
      assert s[1..][n - 1..] == s[n..];
      var lo, hi, w := Val(s[1..][..n - 1]), Val(s[n..]), Weight(n - 1);
      MulAssoc(W, w, hi);
    } else {
      assert s[0..] == s;
    }
  }

  lemma {:induction false} ValBound(s: seq<u32>)
    ensures Val(s) < Weight(|s|)
  {
    if s != [] {
      ValBound(s[1..]);
    }
  }

  /** Appending a most significant word. */
  lemma ValSnoc(s: seq<u32>, x: u32)
    ensures Val(s + [x]) == Val(s) + Weight(|s|) * x
  {
    ValSplit(s + [x], |s|);
    assert (s + [x])[..|s|] == s && (s + [x])[|s|..] == [x];
    assert Val([x]) == x;
  }

  /** Changing the words from i on changes the value by the change above, times the weight of word i. */
  lemma ValSplice(before: seq<u32>, after: seq<u32>, i: nat, d: int)
    requires i <= |before| && i <= |after|
    requires after[..i] == before[..i]
    requires Val(after[i..]) == Val(before[i..]) + d
    ensures Val(after) == Val(before) + Weight(i) * d
  {
    ValSplit(before, i);
    ValSplit(after, i);
    SpliceAlg(Val(before[..i]), Weight(i), Val(before[i..]), Val(after[i..]), d, Val(before), Val(after));
  }

  lemma SpliceAlg(lo: int, w: int, x: int, y: int, d: int, before: int, after: int)
    requires before == lo + w * x && after == lo + w * y && y == x + d
    ensures after == before + w * d
  {
    MulAdd(w, x, d);
  }

  lemma SnocTimes(a: seq<u32>, x: u32, b: int)
    ensures Val(a + [x]) * b == Val(a) * b + Weight(|a|) * (x * b)
  {
    ValSnoc(a, x);
    DistR(Val(a), Weight(|a|), x, b, Val(a + [x]));
  }

  lemma AddAlg(lo: int, w: int, w1: int, x: int, y: int, c: int, cin: int, xj: int, yj: int, t: int,
               was: int, now: int, next: int, nextx: int, nexty: int)
    requires w1 == W * w && t == c + xj + yj
    requires was == lo + w * c == x + y + cin
    requires now == lo + w * (t % W) && next == now + w1 * (t / W)
    requires nextx == x + w * xj && nexty == y + w * yj
    ensures next == nextx + nexty + cin
  {
    assert t == W * (t / W) + t % W;
    calc {
      next;
      lo + w * (t % W + W * (t / W));
      lo + w * c + w * xj + w * yj;
      nextx + nexty + cin;
    }
  }

  /** One word of an addition with carry. */
  lemma AddStep(lo: seq<u32>, c: u32, x: seq<u32>, xj: u32, y: seq<u32>, yj: u32, cin: u32, t: u64)
    requires |lo| == |x| == |y|
    requires Val(lo + [c]) == Val(x) + Val(y) + cin
    requires t == c + xj + yj
    ensures Val(lo + [t % W] + [t / W]) == Val(x + [xj]) + Val(y + [yj]) + cin
  {
    ValSnoc(lo, c);
    ValSnoc(lo, t % W);
    ValSnoc(lo + [t % W], t / W);
    ValSnoc(x, xj);
    ValSnoc(y, yj);
    AddAlg(Val(lo), Weight(|lo|), Weight(|lo| + 1), Val(x), Val(y), c, cin, xj, yj, t, Val(lo + [c]),
           Val(lo + [t % W]), Val(lo + [t % W] + [t / W]), Val(x + [xj]), Val(y + [yj]));
  }

  /** The number whose little-endian bytes are b. */
  function BytesVal(b: seq<u8>): nat
  {
    if b == [] then 0 else (b[0] as nat) + 0x100 * BytesVal(b[1..])
  }

  function Load32(b: seq<u8>): u32
    requires |b| == 4
  {
    var b0: nat, b1: nat, b2: nat, b3: nat := b[0], b[1], b[2], b[3];
    b0 + 0x100 * b1 + 0x1_0000 * b2 + 0x100_0000 * b3
  }

  function Store32(x: u32): (b: seq<u8>)
    ensures |b| == 4 && Load32(b) == x
  {
    var x1, x2, x3 := x / 0x100, x / 0x100 / 0x100, x / 0x100 / 0x100 / 0x100;
    [x % 0x100, x1 % 0x100, x2 % 0x100, x3]
  }

  function LoadWords(b: seq<u8>): (s: seq<u32>)
    requires |b| % 4 == 0
    ensures |s| == |b| / 4
  {
    if b == [] then [] else [Load32(b[..4])] + LoadWords(b[4..])
  }

  function StoreWords(s: seq<u32>): (b: seq<u8>)
    ensures |b| == 4 * |s|
  {
    if s == [] then [] else Store32(s[0]) + StoreWords(s[1..])
  }

  lemma {:induction false} LoadWordsVal(b: seq<u8>)
    requires |b| % 4 == 0
    ensures Val(LoadWords(b)) == BytesVal(b)
  {
    if b != [] {
      LoadWordsVal(b[4..]);
      assert b[1..][1..] == b[2..] && b[2..][1..] == b[3..] && b[3..][1..] == b[4..];
      assert BytesVal(b[2..]) == b[2] + 0x100 * BytesVal(b[3..]);
      assert BytesVal(b[3..]) == b[3] + 0x100 * BytesVal(b[4..]);
    }
  }

  lemma {:induction false} StoreLoad(s: seq<u32>)
    ensures LoadWords(StoreWords(s)) == s
  {
    if s != [] {
      StoreLoad(s[1..]);
      var b := StoreWords(s);
      assert b[..4] == Store32(s[0]) && b[4..] == StoreWords(s[1..]);
    }
  }

  lemma StoreWordsVal(s: seq<u32>)
    ensures BytesVal(StoreWords(s)) == Val(s)
  {
    StoreLoad(s);
    LoadWordsVal(StoreWords(s));
  }

  /** 256 to the power n: the weight of byte n. */
  function Pow256(n: nat): (p: nat)
    ensures p >= 1
  {
    if n == 0 then 1 else 0x100 * Pow256(n - 1)
  }

  lemma {:induction false} BytesBound(b: seq<u8>)
    ensures BytesVal(b) < Pow256(|b|)
  {
    if b != [] { BytesBound(b[1..]); }
  }

  lemma {:induction false} BytesSnoc(b: seq<u8>, x: u8)
    ensures BytesVal(b + [x]) == BytesVal(b) + Pow256(|b|) * x
  {
    if b == [] {
      assert BytesVal([x]) == x;
    } else {
      BytesSnoc(b[1..], x);
      assert (b + [x])[1..] == b[1..] + [x];
      MulAssoc(0x100, Pow256(|b| - 1), x);
    }
  }
}
