/**
 * The ChaCha20 stream cipher around its rounds, which are any function from the 16 input words to the
 * 16 output words. Text is encrypted inside one memory buffer, so that source and destination may overlap.
 */
module ChaCha20 {
  import opened Words
  import opened Bits
  import opened Bitwise
  import opened NatLemmas

  /** Word j of the output of the rounds. */
  type Rounds = (seq<u32>, nat) -> u32

  /** "expand 32-byte k". */
  const SIGMA: seq<u32> := [0x61707865, 0x3320646e, 0x79622d32, 0x6b206574]

  const CTR_END := 0x1_0000_0000_0000_0000

  datatype Cipher = Cipher(rounds: Rounds, key: seq<u8>, nonce: seq<u8>) {
    predicate Valid() { |key| == 32 && |nonce| == 8 }
  }

  function Input(c: Cipher, ctr: u64): (r: seq<u32>)
    requires c.Valid()
    ensures |r| == 16
  {
    SIGMA + LoadWords(c.key) + [ctr % 0x1_0000_0000, ctr / 0x1_0000_0000] + LoadWords(c.nonce)
  }

  /** Word j of a key stream block. */
  function BlockWord(rounds: Rounds, input: seq<u32>, j: nat): u32
    requires |input| == 16 && j < 16
  {
    (rounds(input, j) + input[j]) % 0x1_0000_0000
  }

  /** Byte i of the key stream that starts at block ctr; blocks are numbered modulo 2^64. */
  function KeyByte(c: Cipher, ctr: u64, i: nat): u8
    requires c.Valid()
    decreases i
  {
    if i >= 64 then KeyByte(c, (ctr + 1) % CTR_END, i - 64)
    else Store32(BlockWord(c.rounds, Input(c, ctr), i / 4))[i % 4]
  }

  /** What a stream cipher does to the byte x at position i. */
  type Stream = (nat, u8) -> u8

  /** Xor with the key stream that starts at block ctr. */
  function Key(c: Cipher, ctr: u64): Stream
    requires c.Valid()
  {
    (i, x) => XorByte(KeyByte(c, ctr, i), x)
  }

  /** A whole text under a stream cipher. */
  function Mix(s: Stream, text: seq<u8>): (r: seq<u8>)
    ensures |r| == |text|
  {
    if text == [] then []
    else var m := |text| - 1; Mix(s, text[..m]) + [s(m, text[m])]
  }

  lemma MixSnoc(s: Stream, a: seq<u8>, x: u8)
    ensures Mix(s, a + [x]) == Mix(s, a) + [s(|a|, x)]
  {
    assert (a + [x])[..|a|] == a;
  }

  lemma MixEmpty(s: Stream)
    ensures Mix(s, []) == []
  {
  }

  lemma {:induction false} MixUndone(s: Stream, text: seq<u8>)
    requires forall i :: 0 <= i < |text| ==> s(i, s(i, text[i])) == text[i]
    ensures Mix(s, Mix(s, text)) == text
  {
    hide Mix;
    if text == [] {
      MixEmpty(s);
    } else {
      var m := |text| - 1;
      var a, x := text[..m], text[m];
      MixUndone(s, a);
      MixSnoc(s, a, x);
      MixSnoc(s, Mix(s, a), s(m, x));
      assert text == a + [x] && s(m, s(m, x)) == x;
    }
  }

  /** Decryption is encryption. */
  lemma MixTwice(c: Cipher, ctr: u64, text: seq<u8>)
    requires c.Valid()
    ensures Mix(Key(c, ctr), Mix(Key(c, ctr), text)) == text
  {
    var s := Key(c, ctr);
    forall i | 0 <= i < |text| ensures s(i, s(i, text[i])) == text[i] { XorCancel(KeyByte(c, ctr, i), text[i]); }
    MixUndone(s, text);
  }

  lemma {:induction false} MixSplit(s: Stream, t: Stream, a: seq<u8>, b: seq<u8>)
    requires forall i, x :: 0 <= i < |b| ==> s(|a| + i, x) == t(i, x)
    ensures Mix(s, a + b) == Mix(s, a) + Mix(t, b)
  {
    if b == [] {
      assert a + b == a;
    } else {
      var m := |b| - 1;
      MixSplit(s, t, a, b[..m]);
      assert a + b == a + b[..m] + [b[m]];
      MixSnoc(s, a + b[..m], b[m]);
      assert s(|a| + m, b[m]) == t(m, b[m]);
    }
  }

  /** The number of the block n blocks on. */
  function Later(ctr: u64, n: nat): u64
  {
    if n == 0 then ctr else (Later(ctr, n - 1) + 1) % CTR_END
  }

  lemma {:induction false} LaterIsSum(ctr: u64, n: nat)
    ensures Later(ctr, n) == (ctr + n) % CTR_END
  {
    if n > 0 {
      LaterIsSum(ctr, n - 1);
      ModSucc(ctr + n - 1, CTR_END);
    } else {
      DivModUnique(ctr, CTR_END, 0, ctr);
    }
  }

  lemma {:induction false} LaterNext(ctr: u64, n: nat)
    ensures Later((ctr + 1) % CTR_END, n) == Later(ctr, n + 1)
  {
    if n > 0 { LaterNext(ctr, n - 1); }
  }

  lemma {:induction false} KeyByteLater(c: Cipher, ctr: u64, n: nat, i: nat)
    requires c.Valid()
    ensures KeyByte(c, ctr, 64 * n + i) == KeyByte(c, Later(ctr, n), i)
    decreases n
  {
    if n > 0 {
      KeyByteLater(c, (ctr + 1) % CTR_END, n - 1, i);
      LaterNext(ctr, n - 1);
    }
  }

  /** Text may be split after whole blocks, counting on from there. */
  lemma Continue(c: Cipher, ctr: u64, n: nat, a: seq<u8>, b: seq<u8>)
    requires c.Valid() && |a| == 64 * n
    ensures Mix(Key(c, ctr), a + b) == Mix(Key(c, ctr), a) + Mix(Key(c, Later(ctr, n)), b)
  {
    var s, t := Key(c, ctr), Key(c, Later(ctr, n));
    forall i, x | 0 <= i < |b| ensures s(|a| + i, x) == t(i, x) { KeyByteLater(c, ctr, n, i); }
    MixSplit(s, t, a, b);
  }

  /** The bytes of a word's xor are the bytes' xors. */
  lemma XorBytes(p: u32, b: seq<u8>, k: nat)
    requires |b| == 4 && k < 4
    ensures Store32(XorWord(p, Load32(b)))[k] == XorByte(Store32(p)[k], b[k])
  {
    var q := Store32(p);
    Pow2Values();
    var p3: nat, b3: nat := q[3], b[3];
    var p2: nat, b2: nat := q[2] + 0x100 * p3, b[2] + 0x100 * b3;
    var p1: nat, b1: nat := q[1] + 0x100 * p2, b[1] + 0x100 * b2;
    XorSplit(q[0], p1, b[0], b1, 8, p, Load32(b));
    XorSplit(q[1], p2, b[1], b2, 8, p1, b1);
    XorSplit(q[2], p3, b[2], b3, 8, p2, b2);
    ByteOf(XorWord(p, Load32(b)), XorByte(q[0], b[0]), XorByte(q[1], b[1]), XorByte(q[2], b[2]), XorByte(q[3], b[3]));
  }

  lemma ByteOf(x: u32, x0: u8, x1: u8, x2: u8, x3: u8)
    requires x == x0 + 0x100 * (x1 + 0x100 * (x2 + 0x100 * x3))
    ensures Store32(x) == [x0, x1, x2, x3]
  {
    Peel(x, x0, x1 + 0x100 * (x2 + 0x100 * x3));
    Peel(x1 + 0x100 * (x2 + 0x100 * x3), x1, x2 + 0x100 * x3);
    Peel(x2 + 0x100 * x3, x2, x3);
  }

  lemma Peel(x: int, b: int, rest: int)
    requires x == b + 0x100 * rest && 0 <= b < 0x100
    ensures x % 0x100 == b && x / 0x100 == rest
  {
  }

  /** b with w written at position at. */
  function Put(b: seq<u8>, at: nat, w: seq<u8>): (r: seq<u8>)
    requires at + |w| <= |b|
    ensures |r| == |b|
  {
    b[..at] + w + b[at + |w|..]
  }

  /** store32_le(to, p ^ load32_le(from)), whether or not the two places overlap. */
  method XorInto(buf: array<u8>, to: nat, from: nat, p: u32) returns (ghost w: seq<u8>)
    requires to + 4 <= buf.Length && from + 4 <= buf.Length
    modifies buf
    ensures |w| == 4 && buf[..] == Put(old(buf[..]), to, w)
    ensures forall k :: 0 <= k < 4 ==> w[k] == XorByte(Store32(p)[k], old(buf[..])[from + k])
  {
    var b := buf[from..from + 4];
    var x := Store32(XorWord(p, Load32(b)));
    forall k | 0 <= k < 4 ensures x[k] == XorByte(Store32(p)[k], b[k]) { XorBytes(p, b, k); }
    Write4(buf, to, x);
    w := x;
  }

  method Write4(buf: array<u8>, to: nat, x: seq<u8>)
    requires to + 4 <= buf.Length && |x| == 4
    modifies buf
    ensures buf[..] == Put(old(buf[..]), to, x)
  {
    buf[to], buf[to + 1], buf[to + 2], buf[to + 3] := x[0], x[1], x[2], x[3];
  }

  /** The buffer when the first n bytes at from have been enciphered and written at to. */
  ghost function Partly(was: seq<u8>, s: Stream, to: nat, from: nat, n: nat): (r: seq<u8>)
    requires to + n <= |was| && from + n <= |was|
    ensures |r| == |was|
  {
    if n == 0 then was else Partly(was, s, to, from, n - 1)[to + n - 1 := s(n - 1, was[from + n - 1])]
  }

  ghost predicate Mixed(now: seq<u8>, was: seq<u8>, s: Stream, to: nat, from: nat, n: nat)
  {
    to + n <= |was| && from + n <= |was| && now == Partly(was, s, to, from, n)
  }

  /** In the end, the enciphered text is at to and the rest is as it was. */
  lemma {:induction false} PartlyIsMix(was: seq<u8>, s: Stream, to: nat, from: nat, n: nat)
    requires to + n <= |was| && from + n <= |was|
    ensures Partly(was, s, to, from, n) == Put(was, to, Mix(s, was[from..from + n]))
  {
    hide Mix, Put;
    if n == 0 {
      PutNothing(was, to, Mix(s, was[from..from]));
    } else {
      var a, x := was[from..from + n - 1], was[from + n - 1];
      PartlyIsMix(was, s, to, from, n - 1);
      MixSnoc(s, a, x);
      SliceSnoc(was, from, n - 1);
      PutSnoc(was, to, Mix(s, a), s(n - 1, x));
    }
  }

  lemma SliceSnoc(b: seq<u8>, from: nat, n: nat)
    requires from + n < |b|
    ensures b[from..from + n + 1] == b[from..from + n] + [b[from + n]]
  {
  }

  lemma PutNothing(b: seq<u8>, at: nat, w: seq<u8>)
    requires at <= |b| && w == []
    ensures Put(b, at, w) == b
  {
  }

  lemma PutSnoc(b: seq<u8>, at: nat, w: seq<u8>, x: u8)
    requires at + |w| < |b|
    ensures Put(b, at, w + [x]) == Put(b, at, w)[at + |w| := x]
  {
  }

  /** Forward processing is safe if the destination is not inside the source's unread part. */
  predicate Forward(to: nat, from: nat, n: nat) { to <= from || from + n <= to }

  /** What has not been read yet is as it was. */
  lemma {:induction false} Unread(was: seq<u8>, s: Stream, to: nat, from: nat, n: nat, done: nat, k: nat)
    requires Forward(to, from, n) && to + n <= |was| && from + n <= |was| && done <= k < n
    ensures Partly(was, s, to, from, done)[from + k] == was[from + k]
    decreases done
  {
    if done > 0 { Unread(was, s, to, from, n, done - 1, k); }
  }

  /** Writing the next bytes extends the part that is done. */
  lemma {:induction false} MixedExtend(now: seq<u8>, was: seq<u8>, s: Stream, to: nat, from: nat, n: nat, done: nat,
                                       w: seq<u8>)
    requires Mixed(now, was, s, to, from, done) && done + |w| <= n && to + n <= |was| && from + n <= |was|
    requires Forward(to, from, n)
    requires forall k :: 0 <= k < |w| ==> w[k] == s(done + k, now[from + done + k])
    ensures Mixed(Put(now, to + done, w), was, s, to, from, done + |w|)
    decreases |w|
  {
    hide Put;
    if w == [] {
      PutNothing(now, to + done, w);
    } else {
      var m := |w| - 1;
      MixedExtend(now, was, s, to, from, n, done, w[..m]);
      Unread(was, s, to, from, n, done, done + m);
      PutSnoc(now, to + done, w[..m], w[m]);
      assert w == w[..m] + [w[m]];
    }
  }

  /** The four bytes of p are what the stream xors at position at. */
  ghost predicate WordAt(s: Stream, at: nat, p: u32)
  {
    forall k, x :: 0 <= k < 4 ==> s(at + k, x) == XorByte(Store32(p)[k], x)
  }

  ghost predicate BlockAt(s: Stream, at: nat, words: seq<u32>)
  {
    |words| == 16 && forall j :: 0 <= j < 16 ==> WordAt(s, at + 4 * j, words[j])
  }

  /** Four more bytes. */
  method MixWord(buf: array<u8>, ghost was: seq<u8>, ghost s: Stream, to: nat, from: nat, ghost n: nat, done: nat,
                 p: u32)
    requires Mixed(buf[..], was, s, to, from, done) && done + 4 <= n && to + n <= buf.Length && from + n <= buf.Length
    requires Forward(to, from, n) && WordAt(s, done, p)
    modifies buf
    ensures Mixed(buf[..], was, s, to, from, done + 4)
  {
    ghost var now := buf[..];
    ghost var w := XorInto(buf, to + done, from + done, p);
    MixedWord(now, was, s, to, from, n, done, p, w);
  }

  lemma MixedWord(now: seq<u8>, was: seq<u8>, s: Stream, to: nat, from: nat, n: nat, done: nat, p: u32, w: seq<u8>)
    requires Mixed(now, was, s, to, from, done) && done + 4 <= n && to + n <= |was| && from + n <= |was|
    requires Forward(to, from, n) && WordAt(s, done, p) && |w| == 4
    requires forall k :: 0 <= k < 4 ==> w[k] == XorByte(Store32(p)[k], now[from + done + k])
    ensures Mixed(Put(now, to + done, w), was, s, to, from, done + 4)
  {
    forall k | 0 <= k < 4 ensures w[k] == s(done + k, now[from + done + k]) {
      assert s(done + k, now[from + done + k]) == XorByte(Store32(p)[k], now[from + done + k]);
    }
    MixedExtend(now, was, s, to, from, n, done, w);
  }

  /** One whole block. */
  method MixBlock(buf: array<u8>, ghost was: seq<u8>, ghost s: Stream, to: nat, from: nat, ghost n: nat, done: nat,
                  words: seq<u32>)
    requires Mixed(buf[..], was, s, to, from, done) && done + 64 <= n && to + n <= buf.Length && from + n <= buf.Length
    requires Forward(to, from, n) && BlockAt(s, done, words)
    modifies buf
    ensures Mixed(buf[..], was, s, to, from, done + 64)
  {
    for j := 0 to 16
      invariant Mixed(buf[..], was, s, to, from, done + 4 * j)
    {
      assert WordAt(s, done + 4 * j, words[j]);
      MixWord(buf, was, s, to, from, n, done + 4 * j, words[j]);
    }
  }

  /** The bytes of a block. */
  method Spread(words: seq<u32>) returns (tmp: seq<u8>)
    requires |words| == 16
    ensures |tmp| == 64 && forall k :: 0 <= k < 64 ==> tmp[k] == Store32(words[k / 4])[k % 4]
  {
    tmp := [];
    for j := 0 to 16
      invariant |tmp| == 4 * j && forall k :: 0 <= k < 4 * j ==> tmp[k] == Store32(words[k / 4])[k % 4]
    {
      var w := Store32(words[j]);
      tmp := tmp + w;
    }
  }

  lemma TailByte(s: Stream, at: nat, words: seq<u32>, k: nat, x: u8)
    requires BlockAt(s, at, words) && k < 64
    ensures s(at + k, x) == XorByte(Store32(words[k / 4])[k % 4], x)
  {
    assert WordAt(s, at + 4 * (k / 4), words[k / 4]);
    assert at + k == at + 4 * (k / 4) + k % 4;
  }

  /** The last, incomplete block. */
  method MixTail(buf: array<u8>, ghost was: seq<u8>, ghost s: Stream, to: nat, from: nat, n: nat, done: nat,
                 words: seq<u32>)
    requires Mixed(buf[..], was, s, to, from, done) && done <= n < done + 64 && to + n <= buf.Length &&
      from + n <= buf.Length
    requires Forward(to, from, n) && BlockAt(s, done, words)
    modifies buf
    ensures Mixed(buf[..], was, s, to, from, n)
  {
    hide Partly, Forward, XorByte;
    var tmp := Spread(words);
    for k := done to n
      invariant Mixed(buf[..], was, s, to, from, k)
    {
      TailByte(s, done, words, k - done, buf[from + k]);
      MixByte(buf, was, s, to, from, n, k, tmp[k - done]);
    }
  }

  /** One more byte. */
  method MixByte(buf: array<u8>, ghost was: seq<u8>, ghost s: Stream, to: nat, from: nat, ghost n: nat, k: nat, key: u8)
    requires Mixed(buf[..], was, s, to, from, k) && k < n && to + n <= buf.Length && from + n <= buf.Length
    requires Forward(to, from, n) && s(k, buf[from + k]) == XorByte(key, buf[from + k])
    modifies buf
    ensures Mixed(buf[..], was, s, to, from, k + 1)
  {
    hide Partly, XorByte, Forward;
    ghost var now := buf[..];
    var x := XorByte(key, buf[from + k]);
    buf[to + k] := x;
    assert buf[..] == Put(now, to + k, [x]);
    MixedExtend(now, was, s, to, from, n, k, [x]);
  }

  /** Counting in two words with a carry counts the block number up modulo 2^64. */
  lemma NextInput(c: Cipher, ctr: u64)
    requires c.Valid()
    ensures Input(c, ctr)[12] == ctr % 0x1_0000_0000 && Input(c, ctr)[13] == ctr / 0x1_0000_0000
    ensures var lo := (ctr % 0x1_0000_0000 + 1) % 0x1_0000_0000;
            var hi := if lo == 0 then (ctr / 0x1_0000_0000 + 1) % 0x1_0000_0000 else ctr / 0x1_0000_0000;
            Input(c, (ctr + 1) % CTR_END) == Input(c, ctr)[12 := lo][13 := hi]
  {
    var next := (ctr + 1) % CTR_END;
    var lo := (ctr % 0x1_0000_0000 + 1) % 0x1_0000_0000;
    var hi := if lo == 0 then (ctr / 0x1_0000_0000 + 1) % 0x1_0000_0000 else ctr / 0x1_0000_0000;
    assert next % 0x1_0000_0000 == lo && next / 0x1_0000_0000 == hi;
    InputWords(SIGMA + LoadWords(c.key), ctr % 0x1_0000_0000, ctr / 0x1_0000_0000, lo, hi, LoadWords(c.nonce));
  }

  lemma InputWords(a: seq<u32>, lo: u32, hi: u32, lo2: u32, hi2: u32, b: seq<u32>)
    requires |a| == 12
    ensures (a + [lo, hi] + b)[12] == lo && (a + [lo, hi] + b)[13] == hi
    ensures (a + [lo, hi] + b)[12 := lo2][13 := hi2] == a + [lo2, hi2] + b
  {
  }

  lemma KeyByteFirst(c: Cipher, ctr: u64, j: nat, k: nat)
    requires c.Valid() && j < 16 && k < 4
    ensures KeyByte(c, ctr, 4 * j + k) == Store32(BlockWord(c.rounds, Input(c, ctr), j))[k]
  {
    Quarter(j, k);
  }

  lemma Quarter(j: nat, k: nat)
    requires k < 4
    ensures (4 * j + k) / 4 == j && (4 * j + k) % 4 == k
  {
  }

  /** The words of block i of the key stream, where they belong in the stream. */
  lemma BlockKey(c: Cipher, ctr: u64, i: nat, words: seq<u32>)
    requires c.Valid() && |words| == 16
    requires forall j :: 0 <= j < 16 ==> words[j] == BlockWord(c.rounds, Input(c, Later(ctr, i)), j)
    ensures BlockAt(Key(c, ctr), 64 * i, words)
  {
    forall j | 0 <= j < 16 ensures WordAt(Key(c, ctr), 64 * i + 4 * j, words[j]) { WordKey(c, ctr, i, j, words[j]); }
  }

  lemma WordKey(c: Cipher, ctr: u64, i: nat, j: nat, p: u32)
    requires c.Valid() && j < 16 && p == BlockWord(c.rounds, Input(c, Later(ctr, i)), j)
    ensures WordAt(Key(c, ctr), 64 * i + 4 * j, p)
  {
    var s := Key(c, ctr);
    forall k, x | 0 <= k < 4 ensures s(64 * i + 4 * j + k, x) == XorByte(Store32(p)[k], x) {
      KeyByteFirst(c, Later(ctr, i), j, k);
      KeyByteLater(c, ctr, i, 4 * j + k);
      assert 64 * i + 4 * j + k == 64 * i + (4 * j + k);
    }
  }

  /** The rounds, and the addition of their input. */
  method OneBlock(rounds: Rounds, input: seq<u32>) returns (words: seq<u32>)
    requires |input| == 16
    ensures |words| == 16 && forall j :: 0 <= j < 16 ==> words[j] == BlockWord(rounds, input, j)
  {
    words := [];
    for j := 0 to 16
      invariant |words| == j && forall k :: 0 <= k < j ==> words[k] == BlockWord(rounds, input, k)
    {
      words := words + [BlockWord(rounds, input, j)];
    }
  }

  /** Counts the block number in the input words up. */
  function Bump(input: seq<u32>): (r: seq<u32>)
    requires |input| == 16
    ensures |r| == 16
  {
    var lo: nat, hi: nat := input[12], input[13];
    var next := input[12 := (lo + 1) % 0x1_0000_0000];
    if next[12] == 0 then next[13 := (hi + 1) % 0x1_0000_0000] else next
  }

  /** The input words for block n of a text. */
  function InputAt(c: Cipher, ctr: u64, n: nat): (r: seq<u32>)
    requires c.Valid()
    ensures |r| == 16
  {
    if n == 0 then Input(c, ctr) else Bump(InputAt(c, ctr, n - 1))
  }

  lemma {:induction false} InputAtIs(c: Cipher, ctr: u64, n: nat)
    requires c.Valid()
    ensures InputAt(c, ctr, n) == Input(c, Later(ctr, n))
  {
    if n > 0 {
      InputAtIs(c, ctr, n - 1);
      NextInput(c, Later(ctr, n - 1));
    }
  }

  /** The block number is what the two counter words hold. */
  lemma CounterWords(c: Cipher, ctr: u64, n: nat)
    requires c.Valid()
    ensures InputAt(c, ctr, n)[12] as nat + 0x1_0000_0000 * InputAt(c, ctr, n)[13] as nat == Later(ctr, n)
  {
    InputAtIs(c, ctr, n);
    NextInput(c, Later(ctr, n));
  }

  lemma BlockCount(ctr: u64, n: nat, last: u64)
    requires last == (ctr + n / 64) % CTR_END
    ensures (last + if n % 64 > 0 then 1 else 0) % CTR_END == (ctr + (n + 63) / 64) % CTR_END
  {
    var full := (n + 63) / 64;
    assert full == n / 64 + if n % 64 > 0 then 1 else 0;
  }

  method NextCounter(ghost c: Cipher, ghost ctr: u64, n: nat, input: seq<u32>) returns (next: u64)
    requires c.Valid() && input == InputAt(c, ctr, n / 64)
    ensures next == (ctr + (n + 63) / 64) % CTR_END
  {
    CounterWords(c, ctr, n / 64);
    LaterIsSum(ctr, n / 64);
    BlockCount(ctr, n, Later(ctr, n / 64));
    var lo: nat := input[12];
    var hi: nat := input[13];
    next := (lo + 0x1_0000_0000 * hi + if n % 64 > 0 then 1 else 0) % CTR_END;
  }

  /** Block i, whole or cut off at the end of the text. */
  method CryptBlock(c: Cipher, buf: array<u8>, ghost was: seq<u8>, ghost ctr: u64, to: nat, from: nat, n: nat, i: nat,
                    input: seq<u32>)
    requires c.Valid() && input == InputAt(c, ctr, i)
    requires Mixed(buf[..], was, Key(c, ctr), to, from, 64 * i) && 64 * i <= n
    requires to + n <= buf.Length && from + n <= buf.Length && Forward(to, from, n)
    modifies buf
    ensures Mixed(buf[..], was, Key(c, ctr), to, from, if 64 * i + 64 <= n then 64 * i + 64 else n)
  {
    var words := OneBlock(c.rounds, input);
    InputAtIs(c, ctr, i);
    BlockKey(c, ctr, i, words);
    if 64 * i + 64 <= n {
      MixBlock(buf, was, Key(c, ctr), to, from, n, 64 * i, words);
    } else {
      MixTail(buf, was, Key(c, ctr), to, from, n, 64 * i, words);
    }
  }

  /** The loop over whole blocks. */
  method CryptWhole(c: Cipher, buf: array<u8>, to: nat, from: nat, n: nat, ctr: u64) returns (input: seq<u32>)
    requires c.Valid() && to + n <= buf.Length && from + n <= buf.Length && Forward(to, from, n)
    modifies buf
    ensures Mixed(buf[..], old(buf[..]), Key(c, ctr), to, from, 64 * (n / 64))
    ensures input == InputAt(c, ctr, n / 64)
  {
    ghost var was := buf[..];
    input := Input(c, ctr);
    for i := 0 to n / 64
      invariant input == InputAt(c, ctr, i)
      invariant Mixed(buf[..], was, Key(c, ctr), to, from, 64 * i)
    {
      CryptBlock(c, buf, was, ctr, to, from, n, i, input);
      input := Bump(input);
    }
  }

  /**
   * crypto_chacha20_djb: the text at from, combined with the key stream, is written at to, also if the two
   * overlap with the destination first. The number of the next unused block is returned.
   */
  method Crypt(c: Cipher, buf: array<u8>, to: nat, from: nat, n: nat, ctr: u64) returns (ctr2: u64)
    requires c.Valid() && to + n <= buf.Length && from + n <= buf.Length && Forward(to, from, n)
    modifies buf
    ensures buf[..] == Put(old(buf[..]), to, Mix(Key(c, ctr), old(buf[..])[from..from + n]))
    ensures ctr2 == (ctr + (n + 63) / 64) % CTR_END
  {
    hide Key, Mix, Put, InputAt;
    ghost var was := buf[..];
    var input := CryptWhole(c, buf, to, from, n, ctr);
    if n % 64 > 0 {
      CryptBlock(c, buf, was, ctr, to, from, n, n / 64, input);
    }
    PartlyIsMix(was, Key(c, ctr), to, from, n);
    ctr2 := NextCounter(c, ctr, n, input);
  }
}
