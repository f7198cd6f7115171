/**
 * Authenticated encryption with ChaCha20 and Poly1305 (section 2.8 of RFC 8439), with a key that moves on
 * after every message.
 */
module Aead {
  import opened Words
  import opened Bitwise
  import opened ChaCha20
  import P = Poly1305
  import opened SecureChannel

  function Store64(x: u64): (b: seq<u8>)
    ensures |b| == 8
  {
    Store32(x % 0x1_0000_0000) + Store32(x / 0x1_0000_0000)
  }

  function Load64(b: seq<u8>): u64
    requires |b| == 8
  {
    var lo: nat, hi: nat := Load32(b[..4]), Load32(b[4..]);
    lo + 0x1_0000_0000 * hi
  }

  lemma Load32Injective(a: seq<u8>, b: seq<u8>)
    requires |a| == 4 && |b| == 4 && Load32(a) == Load32(b)
    ensures a == b
  {
    var x, y := Store32(Load32(a)), Store32(Load32(b));
    ByteOf(Load32(a), a[0], a[1], a[2], a[3]);
    ByteOf(Load32(b), b[0], b[1], b[2], b[3]);
  }

  lemma PairInjective(l: nat, h: nat, l2: nat, h2: nat)
    requires l < 0x1_0000_0000 && l2 < 0x1_0000_0000 && l + 0x1_0000_0000 * h == l2 + 0x1_0000_0000 * h2
    ensures l == l2 && h == h2
  {
  }

  lemma Load64Injective(a: seq<u8>, b: seq<u8>)
    requires |a| == 8 && |b| == 8 && Load64(a) == Load64(b)
    ensures a == b
  {
    PairInjective(Load32(a[..4]), Load32(a[4..]), Load32(b[..4]), Load32(b[4..]));
    Load32Injective(a[..4], b[..4]);
    Load32Injective(a[4..], b[4..]);
    assert a == a[..4] + a[4..] && b == b[..4] + b[4..];
  }

  lemma NeqAlg(half: nat)
    requires half < 0x1_0000_0000
    ensures (half + 0xFFFF_FFFF_FFFF_FFFF) % 0x1_0000_0000_0000_0000 / 0x1_0000_0000 % 2 == if half == 0 then 1 else 0
  {
    if half > 0 {
      assert (half + 0xFFFF_FFFF_FFFF_FFFF) % 0x1_0000_0000_0000_0000 == half - 1;
    }
  }

  /** neq0: 0 for zero, -1 for everything else, without branching. */
  method Neq0(diff: u64) returns (r: int)
    ensures r == if diff == 0 then 0 else -1
  {
    Pow2Word();
    var high, low: nat := diff / 0x1_0000_0000, diff % 0x1_0000_0000;
    OrBound(high, low, 32);
    OrZero(high, low);
    var half := Or(high, low);
    NeqAlg(half);
    var less := (half + 0xFFFF_FFFF_FFFF_FFFF) % 0x1_0000_0000_0000_0000;
    var eq0: int := less / 0x1_0000_0000 % 2;
    r := eq0 - 1;
  }

  /** crypto_verify16: equality without branching. */
  method Verify16(a: seq<u8>, b: seq<u8>) returns (r: int)
    requires |a| == 16 && |b| == 16
    ensures r == if a == b then 0 else -1
  {
    Pow2Word();
    var a0, a1, b0, b1 := Load64(a[..8]), Load64(a[8..]), Load64(b[..8]), Load64(b[8..]);
    var x, y := Xor(a0, b0), Xor(a1, b1);
    XorBound(a0, b0, 64);
    XorBound(a1, b1, 64);
    OrBound(x, y, 64);
    XorZero(a0, b0);
    XorZero(a1, b1);
    OrZero(x, y);
    if Or(x, y) == 0 {
      Load64Injective(a[..8], b[..8]);
      Load64Injective(a[8..], b[8..]);
      assert a == a[..8] + a[8..] && b == b[..8] + b[8..];
    }
    r := Neq0(Or(x, y));
  }

  /** Section 2.6 of RFC 8439: the first block of the key stream. */
  function FirstBlock(c: Cipher, ctr: u64): (r: seq<u8>)
    requires c.Valid()
    ensures |r| == 64
  {
    seq<u8>(64, k requires 0 <= k < 64 => KeyByte(c, ctr, k))
  }

  /** crypto_chacha20_djb without a text, for one block. */
  method KeyBlock(c: Cipher, ctr: u64) returns (b: seq<u8>)
    requires c.Valid()
    ensures b == FirstBlock(c, ctr)
  {
    var words := OneBlock(c.rounds, Input(c, ctr));
    b := Spread(words);
    forall k | 0 <= k < 64 ensures b[k] == KeyByte(c, ctr, k) { KeyByteFirst(c, ctr, k / 4, k % 4); }
  }

  function Zeros(n: nat): (r: seq<u8>)
    ensures |r| == n
  {
    if n == 0 then [] else Zeros(n - 1) + [0]
  }

  /** Section 2.8 of RFC 8439: what is authenticated. */
  function AuthData(ad: seq<u8>, text: seq<u8>): seq<u8>
    requires |ad| < CTR_END && |text| < CTR_END
  {
    ad + Zeros(P.Gap16(|ad|)) + text + Zeros(P.Gap16(|text|)) + Store64(|ad|) + Store64(|text|)
  }

  /** One more piece of the message. */
  method Absorb(ctx: P.Context, ghost before: seq<u8>, piece: seq<u8>)
    requires ctx.Valid() && ctx.cIdx < 16 && ctx.Message() == before
    modifies ctx`h, ctx`cIdx, ctx`done, ctx.c
    ensures ctx.Valid() && ctx.cIdx < 16 && ctx.Message() == before + piece
  {
    ctx.Update(piece);
  }

  method Finish(ctx: P.Context, ghost message: seq<u8>, ghost key: seq<u8>) returns (mac: seq<u8>)
    requires |key| == 32 && ctx.Valid() && ctx.cIdx < 16 && ctx.Message() == message
    requires ctx.r == P.Clamp(LoadWords(key[..16])) && ctx.pad == LoadWords(key[16..])
    modifies ctx`h, ctx.c
    ensures |mac| == 16 && BytesVal(mac) == P.Tag(key, message)
  {
    LoadWordsVal(key[16..]);
    mac := ctx.Final();
  }

  /** lock_auth. */
  method LockAuth(authKey: seq<u8>, ad: seq<u8>, text: seq<u8>) returns (mac: seq<u8>)
    requires |authKey| == 32 && |ad| < CTR_END && |text| < CTR_END
    ensures |mac| == 16 && BytesVal(mac) == P.Tag(authKey, AuthData(ad, text))
  {
    var z1, z2 := Zeros(P.Gap16(|ad|)), Zeros(P.Gap16(|text|));
    var sizes := Store64(|ad|) + Store64(|text|);
    var ctx := new P.Context(authKey);
    Absorb(ctx, [], ad);
    Absorb(ctx, [] + ad, z1);
    Absorb(ctx, [] + ad + z1, text);
    Absorb(ctx, [] + ad + z1 + text, z2);
    Absorb(ctx, [] + ad + z1 + text + z2, sizes);
    Regroup(ad, z1, text, z2, Store64(|ad|), Store64(|text|));
    mac := Finish(ctx, [] + ad + z1 + text + z2 + sizes, authKey);
  }

  lemma Regroup(a: seq<u8>, b: seq<u8>, c: seq<u8>, d: seq<u8>, e: seq<u8>, f: seq<u8>)
    ensures [] + a + b + c + d + (e + f) == a + b + c + d + e + f
  {
  }

  /** crypto_chacha20_h: half of the rounds' output for a key and a 16-byte input. */
  function SubKey(rounds: Rounds, key: seq<u8>, input: seq<u8>): (r: seq<u8>)
    requires |key| == 32 && |input| == 16
    ensures |r| == 32
  {
    var block := SIGMA + LoadWords(key) + LoadWords(input);
    StoreWords([rounds(block, 0), rounds(block, 1), rounds(block, 2), rounds(block, 3)]) +
    StoreWords([rounds(block, 12), rounds(block, 13), rounds(block, 14), rounds(block, 15)])
  }

  const NO_CIPHER := Cipher((input, j) => 0, Zeros(32), Zeros(8))

  datatype State = State(cipher: Cipher, counter: u64)

  /** One end of an encrypted channel: the current key, the nonce and the block counter. */
  type Channel = ch: State | ch.cipher.Valid() witness State(NO_CIPHER, 0)

  /** crypto_aead_init_x. */
  function InitX(rounds: Rounds, key: seq<u8>, nonce: seq<u8>): Channel
    requires |key| == 32 && |nonce| == 24
  {
    State(Cipher(rounds, SubKey(rounds, key, nonce[..16]), nonce[16..]), 0)
  }

  /** The text is enciphered from the second block on. */
  function Encipher(ch: Channel, text: Bytes): (r: Bytes)
    ensures |r| == |text|
  {
    Mix(TextStream(ch), text)
  }

  /** The key stream from the second block on. */
  function TextStream(ch: Channel): Stream { Key(ch.cipher, (ch.counter + 1) % CTR_END) }

  /** The first half of the first block authenticates. */
  function TagOf(ch: Channel, ad: Bytes, text: Bytes): nat
  {
    P.Tag(FirstBlock(ch.cipher, ch.counter)[..32], AuthData(ad, text))
  }

  /** The second half of the first block is the next key. */
  function Advance(ch: Channel): Channel
  {
    ch.(cipher := ch.cipher.(key := FirstBlock(ch.cipher, ch.counter)[32..]))
  }

  function ChaChaPoly(): Scheme<Channel> { Scheme(Encipher, TagOf, Advance) }

  lemma EncipherTwice(ch: Channel, text: Bytes)
    ensures Encipher(ch, Encipher(ch, text)) == text
  {
    MixBack(ch.cipher, (ch.counter + 1) % CTR_END, TextStream(ch), text, Encipher(ch, text));
  }

  lemma MixBack(c: Cipher, ctr: u64, s: Stream, text: seq<u8>, once: seq<u8>)
    requires c.Valid() && s == Key(c, ctr) && once == Mix(s, text)
    ensures Mix(s, once) == text
  {
    MixTwice(c, ctr, text);
  }

  /** Reading in order recovers what was written, and both contexts end up equal. */
  lemma WriteRead(l: Link<Channel>, arrivals: seq<Arrival>)
    requires l.sender == l.receiver && NoForgery(ChaChaPoly(), l, arrivals)
    ensures Run(ChaChaPoly(), l, arrivals).sender == Run(ChaChaPoly(), l, arrivals).receiver
    ensures Run(ChaChaPoly(), l, arrivals).texts == l.texts + SentTexts(arrivals)
  {
    forall k, text ensures ChaChaPoly().encipher(k, ChaChaPoly().encipher(k, text)) == text { EncipherTwice(k, text); }
    InStep(ChaChaPoly(), l, arrivals);
  }

  /** The tag of a text under a channel's current key. */
  method Authenticate(ch: Channel, ad: Bytes, text: Bytes) returns (mac: seq<u8>, next: seq<u8>)
    ensures |mac| == 16 && BytesVal(mac) == TagOf(ch, ad, text)
    ensures |next| == 32 && Advance(ch) == ch.(cipher := ch.cipher.(key := next))
  {
    var block := KeyBlock(ch.cipher, ch.counter);
    mac := LockAuth(block[..32], ad, text);
    next := block[32..];
  }

  /** The text at from is enciphered to to. */
  method EncipherIn(ch: Channel, buf: array<u8>, to: nat, from: nat, n: nat)
    requires to + n <= buf.Length && from + n <= buf.Length && Forward(to, from, n) && n < SIZE_END
    modifies buf
    ensures buf[..] == Put(old(buf[..]), to, Encipher(ch, old(buf[..])[from..from + n]))
    ensures buf[to..to + n] == Encipher(ch, old(buf[..])[from..from + n])
  {
    ghost var was := buf[..];
    ghost var text := CryptTo(ch.cipher, buf, to, from, n, (ch.counter + 1) % CTR_END, TextStream(ch));
    PutRead(was, to, text);
  }

  method CryptTo(c: Cipher, buf: array<u8>, to: nat, from: nat, n: nat, ctr: u64, ghost s: Stream)
    returns (ghost text: seq<u8>)
    requires c.Valid() && s == Key(c, ctr)
    requires to + n <= buf.Length && from + n <= buf.Length && Forward(to, from, n)
    modifies buf
    ensures text == Mix(s, old(buf[..])[from..from + n]) && buf[..] == Put(old(buf[..]), to, text)
  {
    text := Mix(s, buf[..][from..from + n]);
    var ctr2 := Crypt(c, buf, to, from, n, ctr);
  }

  /** A message context: the key is replaced after every message. */
  class Context {
    const rounds: Rounds
    var key: seq<u8>
    var nonce: seq<u8>
    var counter: u64

    function View(): State
      reads this
    {
      State(Cipher(rounds, key, nonce), counter)
    }

    ghost predicate Valid()
      reads this
    {
      View().cipher.Valid()
    }

    /** crypto_aead_init_x. */
    constructor (rounds: Rounds, key: seq<u8>, nonce: seq<u8>)
      requires |key| == 32 && |nonce| == 24
      ensures Valid() && View() == InitX(rounds, key, nonce)
    {
      this.rounds := rounds;
      this.key := SubKey(rounds, key, nonce[..16]);
      this.nonce := nonce[16..];
      counter := 0;
    }

    /** crypto_aead_write, from one place of a buffer to another. */
    method Write(buf: array<u8>, to: nat, from: nat, n: nat, ad: Bytes) returns (mac: seq<u8>)
      requires Valid() && to + n <= buf.Length && from + n <= buf.Length && Forward(to, from, n) && n < SIZE_END
      modifies this`key, buf
      ensures Valid() && View() == Advance(old(View())) && |mac| == 16
      ensures var text := Encipher(old(View()), old(buf[..])[from..from + n]);
              buf[..] == Put(old(buf[..]), to, text) && BytesVal(mac) == TagOf(old(View()), ad, text)
    {
      var ch: Channel := View();
      EncipherIn(ch, buf, to, from, n);
      var next;
      mac, next := Authenticate(ch, ad, buf[to..to + n]);
      key := next;
    }

    /** crypto_aead_read: a wrong tag changes neither the buffer nor the context. */
    method Read(buf: array<u8>, to: nat, from: nat, n: nat, mac: seq<u8>, ad: Bytes) returns (mismatch: int)
      requires Valid() && to + n <= buf.Length && from + n <= buf.Length && Forward(to, from, n) && n < SIZE_END
      requires |mac| == 16
      modifies this`key, buf
      ensures Valid()
      ensures var text := old(buf[..])[from..from + n];
              if BytesVal(mac) == TagOf(old(View()), ad, text)
              then mismatch == 0 && View() == Advance(old(View())) &&
                   buf[..] == Put(old(buf[..]), to, Encipher(old(View()), text))
              else mismatch == -1 && unchanged(this) && unchanged(buf)
    {
      var ch: Channel := View();
      var expected, next := Authenticate(ch, ad, buf[from..from + n]);
      SameBytes(mac, expected);
      mismatch := Verify16(mac, expected);
      if mismatch == 0 {
        EncipherIn(ch, buf, to, from, n);
        key := next;
      }
    }
  }

  lemma PutRead(b: seq<u8>, at: nat, w: seq<u8>)
    requires at + |w| <= |b|
    ensures Put(b, at, w)[at..at + |w|] == w
  {
  }

  /** Bytes are determined by the number they stand for. */
  lemma {:induction false} SameBytes(a: seq<u8>, b: seq<u8>)
    requires |a| == |b|
    ensures a == b <==> BytesVal(a) == BytesVal(b)
  {
    if a != [] { SameBytes(a[1..], b[1..]); assert a == [a[0]] + a[1..] && b == [b[0]] + b[1..]; }
  }
}
