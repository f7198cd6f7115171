/**
 * The incremental interface of BLAKE2b: a 128-byte buffer kept as sixteen 64-bit words, filled by bytes,
 * by words and by blocks, and compressed lazily. The compression function itself is a parameter.
 */
module Blake2b {
  import opened Common
  import opened Words

  const W64 := 0x1_0000_0000_0000_0000

  /** hash, block words, both offset words, last-block flag -> new hash */
  type Compression = (seq<u64>, seq<u64>, u64, u64, bool) -> seq<u64>

  /** The bytes of word k of a buffer that holds buf, as far as buf reaches. */
  function WordBytes(buf: seq<u8>, k: nat): seq<u8>
  {
    buf[Min(8 * k, |buf|)..Min(8 * k + 8, |buf|)]
  }

  /** The sixteen words of a buffer that holds buf followed by zeros. */
  function BlockWords(buf: seq<u8>): (w: seq<u64>)
    requires |buf| <= 128
    ensures |w| == 16
  {
    seq(16, k requires 0 <= k < 16 => WordOf(buf, k))
  }

  function WordOf(buf: seq<u8>, k: nat): u64
  {
    BytesBound(WordBytes(buf, k));
    Pow256Mono(|WordBytes(buf, k)|, 8);
    Pow256Eight();
    BytesVal(WordBytes(buf, k))
  }

  lemma {:induction false} Pow256Mono(m: nat, n: nat)
    requires m <= n
    ensures Pow256(m) <= Pow256(n)
  {
    if m < n { Pow256Mono(m, n - 1); }
  }

  lemma Pow256Eight()
    ensures Pow256(8) == W64
  {
    assert Pow256(2) == 0x1_0000;
    assert Pow256(4) == 0x1_0000_0000;
    assert Pow256(6) == 0x1_0000_0000_0000;
  }

  /** Appending within word w leaves the other words alone. */
  lemma OtherWords(buf: seq<u8>, x: seq<u8>, w: nat)
    requires 8 * w <= |buf| && |buf| + |x| <= 8 * w + 8 <= 128
    ensures forall k :: 0 <= k < 16 && k != w ==> BlockWords(buf + x)[k] == BlockWords(buf)[k]
  {
    forall k | 0 <= k < 16 && k != w ensures BlockWords(buf + x)[k] == BlockWords(buf)[k] {
      assert WordBytes(buf + x, k) == WordBytes(buf, k);
    }
  }

  /** One more byte: only the word it falls in changes, by x << 8*byte, and that word had no bits there. */
  lemma AppendByte(buf: seq<u8>, x: u8)
    requires |buf| < 128
    ensures var w, byte := |buf| / 8, |buf| % 8;
            WordOf(buf, w) < Pow256(byte) &&
            WordOf(buf, w) + Pow256(byte) * x < W64 &&
            BlockWords(buf + [x]) == BlockWords(buf)[w := WordOf(buf, w) + Pow256(byte) * x]
  {
    var w, byte, b := |buf| / 8, |buf| % 8, WordBytes(buf, |buf| / 8);
    assert |b| == byte;
    BytesBound(b);
    BytesSnoc(b, x);
    assert WordBytes(buf + [x], w) == b + [x];
    assert WordOf(buf + [x], w) == WordOf(buf, w) + Pow256(byte) * x;
    OtherWords(buf, [x], w);
  }

  /** Eight more bytes at a word boundary: one word is replaced. */
  lemma AppendWord(buf: seq<u8>, x: seq<u8>)
    requires |buf| % 8 == 0 && |buf| <= 120 && |x| == 8
    ensures BytesVal(x) < W64
    ensures BlockWords(buf + x) == BlockWords(buf)[|buf| / 8 := BytesVal(x)]
  {
    var w := |buf| / 8;
    BytesBound(x);
    Pow256Eight();
    assert WordBytes(buf + x, w) == x;
    OtherWords(buf, x, w);
  }

  /** The hash after the whole blocks in done, the first of which starts at byte off. */
  function HashBlocks(f: Compression, h: seq<u64>, done: seq<u8>, off: nat): seq<u64>
    requires |done| % 128 == 0
    decreases |done|
  {
    if done == [] then h
    else HashBlocks(f, f(h, BlockWords(done[..128]), (off + 128) % W64, (off + 128) / W64 % W64, false),
                    done[128..], off + 128)
  }

  lemma {:induction false} HashBlocksSnoc(f: Compression, h: seq<u64>, done: seq<u8>, block: seq<u8>, off: nat)
    requires |done| % 128 == 0 && |block| == 128
    ensures var t := off + |done| + 128;
            HashBlocks(f, h, done + block, off)
            == f(HashBlocks(f, h, done, off), BlockWords(block), t % W64, t / W64 % W64, false)
    decreases |done|
  {
    if done == [] {
      assert done + block == block && block[..128] == block && block[128..] == [];
    } else {
      var h' := f(h, BlockWords(done[..128]), (off + 128) % W64, (off + 128) / W64 % W64, false);
      HashBlocksSnoc(f, h', done[128..], block, off + 128);
      assert (done + block)[..128] == done[..128] && (done + block)[128..] == done[128..] + block;
    }
  }

  /** How many bytes of an n-byte message are compressed before the end is known: all but the last block. */
  function Done(n: nat): (d: nat)
    ensures d % 128 == 0 && d <= n && n - d <= 128 && (d == n ==> n == 0)
  {
    if n == 0 then 0 else (n - 1) / 128 * 128
  }

  /** Section 3.3 of RFC 7693, for a message that already starts with the padded key block, if any. */
  function Digest(f: Compression, h: seq<u64>, m: seq<u8>): seq<u64>
  {
    var d := Done(|m|);
    f(HashBlocks(f, h, m[..d], 0), BlockWords(m[d..]), |m| % W64, |m| / W64 % W64, true)
  }

  /** The distance to the next multiple of 8, and of 128. */
  function Gap8(x: nat): (g: nat)
    ensures g < 8 && (x + g) % 8 == 0
  {
    (8 - x % 8) % 8
  }

  function Gap128(x: nat): (g: nat)
    ensures g < 128 && (x + g) % 128 == 0
    ensures x % 8 == 0 ==> g % 8 == 0
  {
    GapAlg(x / 128, x % 128);
    (128 - x % 128) % 128
  }

  lemma GapAlg(q: nat, r: nat)
    requires r < 128
    ensures var g := (128 - r) % 128; g < 128 && (128 * q + r + g) % 128 == 0 && ((128 * q + r) % 8 == 0 ==> g % 8 == 0)
  {
    if r == 0 {
      assert (128 * q) % 128 == 0;
    } else {
      assert (128 * (q + 1)) % 128 == 0;
    }
  }

  /** Whole words up to the end of the block, or of the message. */
  lemma AlignAlg(x: nat, len: nat)
    requires 0 < x < 128 && (x % 8 == 0 || len == 0)
    ensures var n := Min(Gap128(x), len) / 8 * 8;
            n <= len && x + n <= 128 && n % 8 == 0 && (x + n) % 8 == x % 8 && (x + n == 128 || len - n < 8)
  {
    var g, k, q := Gap128(x), x / 8, Min(Gap128(x), len) / 8;
    assert g == 128 - x;
    hide Gap128;
    if len > 0 {
      assert x == 8 * k;
      assert g <= len ==> q == 16 - k;
      assert x + q * 8 == 8 * (k + q);
    }
  }

  lemma SplitTwice(s: seq<u8>, m: seq<u8>, i: nat, j: nat)
    requires i <= |m| && j <= |m| - i
    ensures s + m == s + m[..i] + m[i..][..j] + m[i..][j..]
  {
  }

  const IV: seq<u64> := [
    0x6a09e667f3bcc908, 0xbb67ae8584caa73b, 0x3c6ef372fe94f82b, 0xa54ff53a5f1d36f1,
    0x510e527fade682d1, 0x9b05688c2b3e6c1f, 0x1f83d9abfb41bd6b, 0x5be0cd19137e2179]

  /** The initial hash for a key and a digest of the given sizes. */
  function InitialHash(hashSize: nat, keySize: nat): (h: seq<u64>)
    requires hashSize < 0x100 && keySize <= 64
    ensures |h| == 8
  {
    var x: bv64 := 0x6a09e667f3bcc908 ^ 0x01010000 ^ ((keySize as bv64) << 8) ^ (hashSize as bv64);
    IV[0 := x as int]
  }

  /** The key padded with zeros to one block; nothing when there is no key. */
  function KeyBlock(key: seq<u8>): (k: seq<u8>)
    requires |key| <= 64
    ensures |k| == if key == [] then 0 else 128
  {
    if key == [] then [] else key + seq(128 - |key|, i => 0)
  }

  /** Byte i of the hash. */
  function HashByte(h: seq<u64>, i: nat): u8
    requires |h| == 8 && i < 64
  {
    h[i / 8] / Pow256(i % 8) % 0x100
  }

  /** Two words that count n bytes modulo 2^128. */
  predicate Counted(n: nat, lo: u64, hi: u64) { lo == n % W64 && hi == n / W64 % W64 }

  class Context {
    const f: Compression
    const hashSize: nat
    const h0: seq<u64>        // the initial hash
    const input: array<u64>   // the block being filled
    var hash: seq<u64>
    var offset0: u64          // bytes compressed so far, low and high word
    var offset1: u64
    var inputIdx: nat         // bytes in the block
    ghost var done: seq<u8>   // the message bytes already compressed
    ghost var buf: seq<u8>    // the message bytes in the block

    /** Exactly these bytes have gone through the compression. */
    ghost predicate Compressed(data: seq<u8>)
      reads this`hash, this`offset0, this`offset1
    {
      |data| % 128 == 0 && hash == HashBlocks(f, h0, data, 0) && Counted(|data|, offset0, offset1)
    }

    ghost predicate Inv()
      reads this, input
    {
      input.Length == 16 && |buf| <= 128 && inputIdx == |buf| && input[..] == BlockWords(buf) && Compressed(done)
    }

    /** Between calls the block is never empty once a byte has arrived: compression waits for more input. */
    ghost predicate Valid()
      reads this, input
    {
      Inv() && (buf == [] ==> done == [])
    }

    ghost function Message(): seq<u8>
      reads this
    {
      done + buf
    }

    /** crypto_blake2b_keyed_init. */
    constructor (f: Compression, hashSize: nat, key: seq<u8>)
      requires hashSize < 0x100 && |key| <= 64
      ensures Valid() && fresh(input)
      ensures this.f == f && this.hashSize == hashSize && h0 == InitialHash(hashSize, |key|)
      ensures Message() == KeyBlock(key)
    {
      this.f := f;
      this.hashSize := hashSize;
      h0 := InitialHash(hashSize, |key|);
      hash := InitialHash(hashSize, |key|);
      offset0, offset1 := 0, 0;
      inputIdx := 0;
      input := new u64[16](i => 0);
      done, buf := [], [];
      new;
      assert forall k :: 0 <= k < 16 ==> WordOf([], k) == 0;
      assert input[..] == BlockWords([]);
      if |key| > 0 {
        LoadBlock(KeyBlock(key));
        inputIdx, buf := 128, KeyBlock(key);
      }
    }

    /** blake2b_compress: the 128-bit offset grows by the bytes in the block, then the block is mixed in. */
    method Compress(last: bool)
      requires Inv()
      modifies this`hash, this`offset0, this`offset1
      ensures var t := |done| + |buf|;
              offset0 == t % W64 && offset1 == t / W64 % W64 &&
              hash == f(old(hash), BlockWords(buf), t % W64, t / W64 % W64, last)
    {
      OffsetAlg(|done|, inputIdx);
      offset0 := (offset0 + inputIdx) % W64;
      if offset0 < inputIdx {
        offset1 := (offset1 + 1) % W64;
      }
      hash := f(hash, input[..], offset0, offset1, last);
    }

    /** Compresses a full block that turned out not to be the last. */
    method CompressFull()
      requires Inv() && inputIdx == 128
      modifies this`hash, this`offset0, this`offset1
      ensures Compressed(done + buf)
    {
      hide BlockWords, HashBlocks;
      HashBlocksSnoc(f, h0, done, buf, 0);
      Compress(false);
    }

    method FlushFull()
      requires Inv() && inputIdx == 128
      modifies this
      modifies input
      ensures Inv() && inputIdx == 0 && Message() == old(Message())
    {
      hide Compressed;
      CompressFull();
      done, buf, inputIdx := done + buf, [], 0;
      ZeroInput();
    }

    method ZeroInput()
      requires input.Length == 16
      modifies input
      ensures input[..] == BlockWords([])
    {
      for i := 0 to 16
        invariant forall k :: 0 <= k < i ==> input[k] == 0
      {
        input[i] := 0;
      }
      assert forall k :: 0 <= k < 16 ==> WordOf([], k) == 0;
    }

    /** input[word] |= x << 8*byte. */
    method PutByte(x: u8)
      requires Inv() && |buf| < 128
      modifies this`inputIdx, this`buf, input
      ensures Inv() && buf == old(buf) + [x]
    {
      hide Compressed;
      var word, byte := inputIdx / 8, inputIdx % 8;
      AppendByte(buf, x);
      assert input[..][word] == WordOf(buf, word);
      ghost var was := input[..];
      var v: u64 := input[word] + Pow256(byte) * x;
      input[word] := v;
      assert input[..] == was[word := v];
      inputIdx, buf := inputIdx + 1, buf + [x];
    }

    method PutBytes(bytes: seq<u8>)
      requires Inv() && |buf| + |bytes| <= 128
      modifies this`inputIdx, this`buf, input
      ensures Inv() && buf == old(buf) + bytes
    {
      hide Compressed, BlockWords;
      for i := 0 to |bytes|
        invariant Inv() && buf == old(buf) + bytes[..i]
      {
        PutByte(bytes[i]);
      }
      assert bytes[..|bytes|] == bytes;
    }

    /** One little-endian word at a word boundary. */
    method PutWord(x: seq<u8>)
      requires Inv() && |buf| % 8 == 0 && |x| == 8 && |buf| <= 120
      modifies this`inputIdx, this`buf, input
      ensures Inv() && buf == old(buf) + x
    {
      hide Compressed;
      AppendWord(buf, x);
      ghost var was := input[..];
      var v: u64 := BytesVal(x);
      input[inputIdx / 8] := v;
      assert input[..] == was[inputIdx / 8 := v];
      inputIdx, buf := inputIdx + 8, buf + x;
    }

    /** load64_le_buf into the block at a word boundary. */
    method PutWords(bytes: seq<u8>)
      requires Inv() && |buf| % 8 == 0 && |bytes| % 8 == 0 && |buf| + |bytes| <= 128
      modifies this`inputIdx, this`buf, input
      ensures Inv() && buf == old(buf) + bytes
    {
      hide Compressed, BlockWords;
      for i := 0 to |bytes| / 8
        invariant Inv() && buf == old(buf) + bytes[..8 * i]
      {
        PutWord(bytes[8 * i..8 * i + 8]);
      }
      assert bytes[..8 * (|bytes| / 8)] == bytes;
    }

    /** Replaces a full or empty block by the next whole one, compressing the old one first. */
    method NextBlock(block: seq<u8>)
      requires Inv() && (inputIdx == 0 || inputIdx == 128) && |block| == 128
      modifies this, input
      ensures Inv() && inputIdx == 128 && Message() == old(Message()) + block
    {
      hide BlockWords, Compressed;
      if inputIdx == 128 {
        CompressFull();
        done := done + buf;
      }
      LoadBlock(block);
      buf, inputIdx := block, 128;
    }

    method LoadBlock(block: seq<u8>)
      requires input.Length == 16 && |block| == 128
      modifies input
      ensures input[..] == BlockWords(block)
    {
      for i := 0 to 16
        invariant forall k :: 0 <= k < i ==> input[k] == WordOf(block, k)
      {
        input[i] := WordOf(block, i);
      }
    }

    /** Completes the word begun by an earlier call, byte by byte. */
    method AlignWord(message: seq<u8>) returns (n: nat)
      requires Valid()
      modifies this`inputIdx, this`buf, input
      ensures Valid() && n <= |message| && buf == old(buf) + message[..n]
      ensures inputIdx % 8 == 0 || n == |message|
    {
      hide Compressed, BlockWords;
      n := 0;
      if inputIdx % 8 != 0 {
        n := Min(Gap8(inputIdx), |message|);
        PutBytes(message[..n]);
      }
    }

    /** Completes the block begun by an earlier call, word by word. */
    method AlignBlock(message: seq<u8>) returns (n: nat)
      requires Valid() && (inputIdx % 8 == 0 || message == [])
      modifies this`inputIdx, this`buf, input
      ensures Valid() && n <= |message| && buf == old(buf) + message[..n]
      ensures inputIdx % 128 == 0 || |message| - n < 8
      ensures inputIdx % 8 == old(inputIdx) % 8
    {
      hide Compressed, BlockWords, Gap128;
      n := 0;
      if inputIdx % 128 != 0 {
        AlignAlg(inputIdx, |message|);
        n := Min(Gap128(inputIdx), |message|) / 8 * 8;
        if n > 0 { PutWords(message[..n]); }
      }
    }

    /** The end of a message: less than a block, or less than a word when the block is not aligned. */
    method Tail(rest: seq<u8>)
      requires Valid() && 0 < |rest| < 128 && (inputIdx % 128 == 0 || (inputIdx % 8 == 0 && |rest| < 8))
      modifies this, input
      ensures Valid() && Message() == old(Message()) + rest
    {
      hide Compressed;
      if inputIdx == 128 { FlushFull(); }
      if inputIdx == 0 { ZeroInput(); }
      PutRest(rest);
    }

    method PutRest(rest: seq<u8>)
      requires Inv() && rest != [] && inputIdx + |rest| <= 128 && (inputIdx == 0 || |rest| < 8)
      modifies this`inputIdx, this`buf, input
      ensures Valid() && buf == old(buf) + rest
    {
      hide Compressed, BlockWords;
      var n := |rest| / 8 * 8;
      if n > 0 { PutWords(rest[..n]); }
      PutBytes(rest[n..]);
      assert rest == rest[..n] + rest[n..];
    }

    /** Whole blocks, then the rest. */
    method Bulk(rest: seq<u8>)
      requires Valid() && (inputIdx % 128 == 0 || |rest| < 8) && (inputIdx % 8 == 0 || rest == [])
      modifies this, input
      ensures Valid() && Message() == old(Message()) + rest
    {
      hide Compressed, BlockWords;
      var m := |rest| / 128 * 128;
      if m > 0 { Blocks(rest[..m]); }
      assert rest == rest[..m] + rest[m..];
      if |rest| % 128 != 0 { Tail(rest[m..]); }
    }

    /** crypto_blake2b_update: only the bytes appended matter. */
    method Update(message: seq<u8>)
      requires Valid()
      modifies this, input
      ensures Valid() && Message() == old(Message()) + message
    {
      hide Compressed, BlockWords;
      if |message| == 0 { return; }
      var n := AlignWord(message);
      var m := AlignBlock(message[n..]);
      Bulk(message[n..][m..]);
      SplitTwice(old(Message()), message, n, m);
    }

    method Blocks(bytes: seq<u8>)
      requires Valid() && inputIdx % 128 == 0 && |bytes| % 128 == 0
      modifies this, input
      ensures Valid() && inputIdx % 128 == 0 && Message() == old(Message()) + bytes
    {
      hide Compressed, BlockWords;
      for i := 0 to |bytes| / 128
        invariant Valid() && inputIdx % 128 == 0 && Message() == old(Message()) + bytes[..128 * i]
      {
        NextBlock(bytes[128 * i..128 * i + 128]);
      }
      assert bytes[..128 * (|bytes| / 128)] == bytes;
    }

    /** crypto_blake2b_final: the first hashSize bytes of the digest of everything absorbed, at most 64. */
    method Final() returns (out: seq<u8>)
      requires Valid() && EightWords(f)
      modifies this`hash, this`offset0, this`offset1
      ensures |out| == Min(hashSize, 64)
      ensures forall i :: 0 <= i < |out| ==> out[i] == HashByte(Digest(f, h0, Message()), i)
    {
      DoneUnique(done, buf);
      Compress(true);
      assert hash == Digest(f, h0, Message());
      var size := Min(hashSize, 64);
      out := [];
      for i := 0 to size
        invariant |out| == i && forall k :: 0 <= k < i ==> out[k] == HashByte(hash, k)
      {
        out := out + [HashByte(hash, i)];
      }
    }
  }

  /** The compression function returns eight words. */
  ghost predicate EightWords(f: Compression)
  {
    forall h, b, o0, o1, l :: |f(h, b, o0, o1, l)| == 8
  }

  /** A valid context compresses exactly the blocks before the last one. */
  lemma DoneUnique(done: seq<u8>, buf: seq<u8>)
    requires |done| % 128 == 0 && |buf| <= 128 && (buf == [] ==> done == [])
    ensures |done| == Done(|done + buf|)
    ensures (done + buf)[..|done|] == done && (done + buf)[|done|..] == buf
  {
  }

  lemma OffsetAlg(d: nat, y: nat)
    requires y <= 128
    ensures var x0, x1 := (d % W64 + y) % W64, d / W64 % W64;
            x0 == (d + y) % W64 &&
            (if x0 < y then (x1 + 1) % W64 else x1) == (d + y) / W64 % W64
  {
    var q, r := d / W64, d % W64;
    if r + y < W64 {
      assert (d + y) / W64 == q && (d + y) % W64 == r + y;
    } else {
      assert (d + y) / W64 == q + 1 && (d + y) % W64 == r + y - W64;
    }
  }

  /** Two contexts that started alike and absorbed the same bytes are equal, however the bytes arrived. */
  lemma ContextDetermined(c: Context, d: Context)
    requires c.Valid() && d.Valid() && c.f == d.f && c.h0 == d.h0
    requires c.Message() == d.Message()
    ensures c.hash == d.hash && c.offset0 == d.offset0 && c.offset1 == d.offset1
    ensures c.inputIdx == d.inputIdx && c.input[..] == d.input[..]
  {
    DoneUnique(c.done, c.buf);
    DoneUnique(d.done, d.buf);
  }

  /** crypto_blake2b_keyed: the one-shot form. */
  method Hash(f: Compression, hashSize: nat, key: seq<u8>, message: seq<u8>) returns (out: seq<u8>)
    requires hashSize < 0x100 && |key| <= 64 && EightWords(f)
    ensures |out| == Min(hashSize, 64)
    ensures forall i :: 0 <= i < |out| ==>
              out[i] == HashByte(Digest(f, InitialHash(hashSize, |key|), KeyBlock(key) + message), i)
  {
    var ctx := new Context(f, hashSize, key);
    ctx.Update(message);
    out := ctx.Final();
  }
}
