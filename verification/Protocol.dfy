/**
 * The packet pipeline: padding, encryption, header and header mask on the way out, and the inverse on the
 * way in, all inside one 2048-byte buffer. The header takes the first 20 bytes.
 */
module Protocol {
  import opened Common
  import opened Words
  import opened Bitwise
  import opened ChaCha20
  import opened SecureChannel
  import opened Aead
  import opened PacketCrypto
  import R = Rekey

  const BUF_SIZE := 2048
  const HLEN := 20
  const MAX_PAD := 32
  const MARGIN := 32

  // Places of the header fields.
  const TYPE := 3
  const KEY_ID := 6
  const FLAGS := 7
  const SID := 8
  const SEQ := 12
  const PAD_LEN := 16

  const MAGIC_HIGH: u8 := 0x56
  const MAGIC_LOW: u8 := 0x46
  const VERSION: u8 := 1
  const SALT: u32 := 0xDEADBEEF

  const HELLO: u8 := 0x02
  const KEEPALIVE: u8 := 0x03
  const AUTH_REQ: u8 := 0x09
  const AUTH_ACK: u8 := 0x0A

  /** The message types that are never encrypted. */
  predicate Clear(typ: u8) { typ == HELLO || typ == KEEPALIVE || typ == AUTH_REQ || typ == AUTH_ACK }

  /** The mask of a header, from its sequence number, which is not masked. */
  function MaskKey(b: seq<u8>): u32
    requires |b| >= HLEN
  {
    XorWord(Load32(b[SEQ..SEQ + 4]), SALT)
  }

  /** (k << 8) | (k >> 24). */
  function Rotated(k: u32): u32 { k % 0x100_0000 * 0x100 + k / 0x100_0000 }

  function MaskAt(b: seq<u8>, at: nat, k: u32): seq<u8>
    requires at + 4 <= |b|
  {
    Put(b, at, Store32(XorWord(Load32(b[at..at + 4]), k)))
  }

  /** The first header word and the session id combined with the mask. */
  function Masked(b: seq<u8>): (r: seq<u8>)
    requires |b| >= HLEN
    ensures |r| == |b|
  {
    MaskAt(MaskAt(b, SID, MaskKey(b)), 0, Rotated(MaskKey(b)))
  }

  lemma MaskAtKeeps(b: seq<u8>, at: nat, k: u32, from: nat, to: nat)
    requires at + 4 <= |b| && from <= to <= |b| && (to <= at || at + 4 <= from)
    ensures |MaskAt(b, at, k)| == |b| && MaskAt(b, at, k)[from..to] == b[from..to]
  {
    PutElsewhere(b, at, Store32(XorWord(Load32(b[at..at + 4]), k)), from, to);
  }

  lemma PutElsewhere(b: seq<u8>, at: nat, w: seq<u8>, from: nat, to: nat)
    requires at + |w| <= |b| && from <= to <= |b| && (to <= at || at + |w| <= from)
    ensures Put(b, at, w)[from..to] == b[from..to]
  {
  }

  lemma XorAgain(a: u32, k: u32)
    ensures XorWord(XorWord(a, k), k) == a
  {
    XorFlip(a, k);
    XorCancel(k, a);
    XorFlip(Xor(k, a), k);
  }

  lemma {:induction false} XorFlip(a: nat, b: nat)
    ensures Xor(a, b) == Xor(b, a)
    decreases a + b
  {
    if a > 0 || b > 0 { XorFlip(a / 2, b / 2); }
  }

  lemma MaskAtTwice(b: seq<u8>, at: nat, k: u32)
    requires at + 4 <= |b|
    ensures MaskAt(MaskAt(b, at, k), at, k) == b
  {
    var w := b[at..at + 4];
    var x := Store32(XorWord(Load32(w), k));
    PutRead(b, at, x);
    XorAgain(Load32(w), k);
    StoreBack(w);
    PutTwice(b, at, x, w);
    PutSame(b, at, w);
  }

  lemma PutSame(b: seq<u8>, at: nat, w: seq<u8>)
    requires at + |w| <= |b| && w == b[at..at + |w|]
    ensures Put(b, at, w) == b
  {
  }

  lemma StoreBack(w: seq<u8>)
    requires |w| == 4
    ensures Store32(Load32(w)) == w
  {
    ByteOf(Load32(w), w[0], w[1], w[2], w[3]);
  }

  lemma MaskAtSwap(b: seq<u8>, i: nat, k: u32, j: nat, l: u32)
    requires i + 4 <= |b| && j + 4 <= |b| && (i + 4 <= j || j + 4 <= i)
    ensures MaskAt(MaskAt(b, i, k), j, l) == MaskAt(MaskAt(b, j, l), i, k)
  {
    MaskAtKeeps(b, i, k, j, j + 4);
    MaskAtKeeps(b, j, l, i, i + 4);
    PutSwap(b, i, Store32(XorWord(Load32(b[i..i + 4]), k)), j, Store32(XorWord(Load32(b[j..j + 4]), l)));
  }

  lemma PutSwap(b: seq<u8>, i: nat, x: seq<u8>, j: nat, y: seq<u8>)
    requires i + |x| <= |b| && j + |y| <= |b| && (i + |x| <= j || j + |y| <= i)
    ensures Put(Put(b, i, x), j, y) == Put(Put(b, j, y), i, x)
  {
  }

  /** Masking is its own inverse. */
  lemma MaskedTwice(b: seq<u8>)
    requires |b| >= HLEN
    ensures Masked(Masked(b)) == b
  {
    var k := MaskKey(b);
    var l := Rotated(k);
    var c := MaskAt(b, SID, k);
    var m := MaskAt(c, 0, l);
    MaskAtKeeps(b, SID, k, SEQ, SEQ + 4);
    MaskAtKeeps(c, 0, l, SEQ, SEQ + 4);
    MaskAtSwap(m, SID, k, 0, l);
    MaskAtTwice(c, 0, l);
    MaskAtTwice(b, SID, k);
  }

  /** One word of the buffer combined with a mask. */
  method XorHeaderWord(buf: array<u8>, at: nat, k: u32)
    requires at + 4 <= buf.Length
    modifies buf
    ensures buf[..] == MaskAt(old(buf[..]), at, k)
  {
    var w := Store32(XorWord(Load32(buf[at..at + 4]), k));
    CopyInto(buf, at, w);
  }

  /** vf_apply_header_obfs. */
  method ApplyMask(buf: array<u8>, wireLen: nat)
    requires buf.Length >= HLEN
    modifies buf
    ensures buf[..] == if wireLen < HLEN then old(buf[..]) else Masked(old(buf[..]))
  {
    if wireLen < HLEN { return; }
    var k := XorWord(Load32(buf[SEQ..SEQ + 4]), SALT);
    XorHeaderWord(buf, SID, k);
    XorHeaderWord(buf, 0, Rotated(k));
  }

  /** vf_remove_header_obfs: the same masks in the other order. */
  method RemoveMask(buf: array<u8>, wireLen: nat)
    requires buf.Length >= HLEN
    modifies buf
    ensures buf[..] == if wireLen < HLEN then old(buf[..]) else Masked(old(buf[..]))
  {
    if wireLen < HLEN { return; }
    var k := XorWord(Load32(buf[SEQ..SEQ + 4]), SALT);
    MaskAtSwap(buf[..], SID, k, 0, Rotated(k));
    XorHeaderWord(buf, 0, Rotated(k));
    XorHeaderWord(buf, SID, k);
  }

  /** The room that is left for padding behind a payload. */
  function Spare(rawLen: nat): int { BUF_SIZE - (HLEN + rawLen) - MARGIN }

  /** The amounts of padding that can follow a payload. */
  predicate Drawable(rawLen: nat, pad: nat)
  {
    if rawLen > 0 && Spare(rawLen) > 0 then pad < Min(MAX_PAD, Spare(rawLen)) else pad == 0
  }

  /** A pseudo-random generator: the next state is also the number drawn. */
  type Generator = u32 -> u32

  /** vpn_fast_rand. */
  function XorShift(seed: u32): u32 { Scrambled(seed as bv32) as u32 }

  function Scrambled(x: bv32): bv32
  {
    var y := x ^ (x << 13);
    var z := y ^ (y >> 17);
    z ^ (z << 5)
  }

  /** The k-th state after a seed. */
  function Drawn(next: Generator, seed: u32, k: nat): u32
  {
    if k == 0 then seed else next(Drawn(next, seed, k - 1))
  }

  /** How many bytes of padding the first number drawn asks for. */
  function PadLen(next: Generator, seed: u32, rawLen: int): (n: nat)
    ensures n < MAX_PAD && (rawLen >= 0 ==> Drawable(rawLen, n))
  {
    if rawLen <= 0 || Spare(rawLen) <= 0 then 0 else
      ModBelow(next(seed), Min(MAX_PAD, Spare(rawLen)));
      next(seed) % Min(MAX_PAD, Spare(rawLen))
  }

  lemma ModBelow(x: nat, n: int)
    requires n > 0
    ensures 0 <= x % n < n
  {
  }

  /** n bytes of noise, four from each number drawn after a seed. */
  function NoiseBytes(next: Generator, seed: u32, n: nat): (noise: seq<u8>)
    ensures |noise| == n
  {
    seq(n, i requires 0 <= i < n => Store32(Drawn(next, seed, i / 4 + 1))[i % 4])
  }

  /** The padding of a payload: its length is drawn first, then its bytes. */
  function Padding(next: Generator, seed: u32, rawLen: int): (noise: seq<u8>)
    ensures |noise| == PadLen(next, seed, rawLen)
  {
    NoiseBytes(next, next(seed), PadLen(next, seed, rawLen))
  }

  /** The state of the generator afterwards. */
  function SeedAfter(next: Generator, seed: u32, rawLen: int): u32
  {
    if rawLen <= 0 || Spare(rawLen) <= 0 then seed else Drawn(next, next(seed), (PadLen(next, seed, rawLen) + 3) / 4)
  }

  /** The noise loop: a new number is drawn for every four bytes. */
  method Noise(next: Generator, seed: u32, n: nat) returns (noise: seq<u8>, seed2: u32)
    ensures noise == NoiseBytes(next, seed, n) && seed2 == Drawn(next, seed, (n + 3) / 4)
  {
    noise, seed2 := [], seed;
    var block: seq<u8> := [0, 0, 0, 0];
    for i := 0 to n
      invariant noise == NoiseBytes(next, seed, i) && seed2 == Drawn(next, seed, (i + 3) / 4)
      invariant |block| == 4 && (i % 4 != 0 ==> block == Store32(seed2))
    {
      if i % 4 == 0 {
        assert (i + 1 + 3) / 4 == (i + 3) / 4 + 1 == i / 4 + 1;
        seed2 := next(seed2);
        block := Store32(seed2);
      } else {
        assert (i + 1 + 3) / 4 == (i + 3) / 4 == i / 4 + 1;
      }
      noise := noise + [block[i % 4]];
    }
  }

  /** The buffer with p bytes of padding behind the payload, and the header saying so. */
  ghost function Padded(b: seq<u8>, rawLen: nat, noise: seq<u8>): seq<u8>
    requires HLEN + rawLen + |noise| <= |b| && |noise| < 0x100
  {
    if noise == [] then Put(b, PAD_LEN, [0])
    else Put(Put(Put(b, HLEN + rawLen, noise), PAD_LEN, [|noise|]), FLAGS, [b[FLAGS] - b[FLAGS] % 2 + 1])
  }

  /** vf_apply_padding, for the 32 bytes it is always called with. */
  method ApplyPadding(next: Generator, seed: u32, buf: array<u8>, rawLen: int)
    returns (len: int, seed2: u32, ghost noise: seq<u8>)
    requires buf.Length >= BUF_SIZE
    modifies buf
    ensures rawLen <= 0 ==> unchanged(buf)
    ensures len == rawLen + |noise| && noise == Padding(next, seed, rawLen) && seed2 == SeedAfter(next, seed, rawLen)
    ensures rawLen > 0 && HLEN + rawLen <= buf.Length ==> buf[..] == Padded(old(buf[..]), rawLen, noise)
  {
    hide Put;
    noise := [];
    if rawLen <= 0 { return rawLen, seed, []; }
    var spare := BUF_SIZE - (HLEN + rawLen) - MARGIN;
    if spare <= 0 {
      CopyInto(buf, PAD_LEN, [0]);
      return rawLen, seed, [];
    }
    seed2 := next(seed);
    ModBelow(seed2, Min(MAX_PAD, spare));
    var n: nat := seed2 % Min(MAX_PAD, spare);
    assert n == PadLen(next, seed, rawLen);
    if n == 0 {
      CopyInto(buf, PAD_LEN, [0]);
      return rawLen, seed2, [];
    }
    var bytes;
    bytes, seed2 := Noise(next, seed2, n);
    noise := bytes;
    ghost var was := buf[..];
    var flags := buf[FLAGS] - buf[FLAGS] % 2 + 1;
    CopyInto(buf, HLEN + rawLen, bytes);
    CopyInto(buf, PAD_LEN, [n]);
    CopyInto(buf, FLAGS, [flags]);
    len := rawLen + n;
  }

  /** vf_remove_padding on a packet of len bytes. */
  method RemovePadding(buf: array<u8>, len: nat) returns (rc: int, len2: nat)
    requires buf.Length >= HLEN
    modifies buf
    ensures rc == if len < HLEN || (old(buf[FLAGS]) % 2 == 1 && len < old(buf[PAD_LEN]) as nat + HLEN) then -1 else 0
    ensures if rc == 0 && old(buf[FLAGS]) % 2 == 1
            then len2 == len - old(buf[PAD_LEN]) && buf[..] == old(buf[..])[FLAGS := old(buf[FLAGS]) - 1]
            else len2 == len && unchanged(buf)
  {
    len2 := len;
    if len < HLEN { return -1, len; }
    if buf[FLAGS] % 2 == 1 {
      var pad: nat := buf[PAD_LEN];
      if len >= pad + HLEN {
        len2 := len - pad;
        buf[FLAGS] := buf[FLAGS] - 1;
      } else {
        return -1, len;
      }
    }
    rc := 0;
  }

  lemma PaddedFields(b: seq<u8>, rawLen: nat, noise: seq<u8>)
    requires |b| >= HLEN && HLEN + rawLen + |noise| <= |b| && |noise| < 0x100
    ensures var r := Padded(b, rawLen, noise);
            |r| == |b| && r[PAD_LEN] == |noise| && (noise != [] ==> r[FLAGS] % 2 == 1) &&
            (noise == [] ==> r[FLAGS] == b[FLAGS]) &&
            r[HLEN..HLEN + rawLen + |noise|] == b[HLEN..HLEN + rawLen] + noise
  {
    var end := HLEN + rawLen + |noise|;
    if noise == [] {
      PutOne(b, PAD_LEN, 0, FLAGS);
      PutOne(b, PAD_LEN, 0, PAD_LEN);
      PutElsewhere(b, PAD_LEN, [0], HLEN, end);
    } else {
      var x := Put(b, HLEN + rawLen, noise);
      var y := Put(x, PAD_LEN, [|noise|]);
      PutElsewhere(x, PAD_LEN, [|noise|], HLEN, end);
      PutElsewhere(y, FLAGS, [b[FLAGS] - b[FLAGS] % 2 + 1], HLEN, end);
      PutOne(x, PAD_LEN, |noise|, PAD_LEN);
      PutOne(y, FLAGS, b[FLAGS] - b[FLAGS] % 2 + 1, PAD_LEN);
      PutOne(y, FLAGS, b[FLAGS] - b[FLAGS] % 2 + 1, FLAGS);
      assert x[HLEN..end] == b[HLEN..HLEN + rawLen] + noise;
    }
  }

  lemma PutOne(b: seq<u8>, at: nat, x: u8, k: nat)
    requires at < |b| && k < |b|
    ensures Put(b, at, [x])[k] == if k == at then x else b[k]
  {
  }

  /** Nothing behind the header has changed. */
  lemma SameBehind(b: seq<u8>, c: seq<u8>, n: nat)
    requires |b| == |c| && HLEN + n <= |b| && forall k :: HLEN <= k < |b| ==> b[k] == c[k]
    ensures c[HLEN..HLEN + n] == b[HLEN..HLEN + n]
  {
  }

  lemma SliceTake(b: seq<u8>, at: nat, n: nat, m: nat)
    requires n <= m && at + m <= |b|
    ensures b[at..at + m][..n] == b[at..at + n]
  {
  }

  /** Padding and stripping alone give back the exact length, whatever the header held before. */
  method PadAndStrip(next: Generator, seed: u32, buf: array<u8>, rawLen: int) returns (rc: int, len: nat)
    requires buf.Length >= BUF_SIZE && 0 < rawLen <= BUF_SIZE - HLEN
    modifies buf
    ensures rc == 0 && len == HLEN + rawLen
    ensures buf[HLEN..HLEN + rawLen] == old(buf[HLEN..HLEN + rawLen])
  {
    ghost var was := buf[..];
    var padded, seed2;
    ghost var noise;
    padded, seed2, noise := ApplyPadding(next, seed, buf, rawLen);
    PaddedFields(was, rawLen, noise);
    ghost var mid := buf[..];
    rc, len := RemovePadding(buf, HLEN + padded);
    SameBehind(mid, buf[..], rawLen);
    SliceTake(mid, HLEN, rawLen, rawLen + |noise|);
    assert (was[HLEN..HLEN + rawLen] + noise)[..rawLen] == was[HLEN..HLEN + rawLen];
    assert buf[HLEN..HLEN + rawLen] == buf[..][HLEN..HLEN + rawLen];
  }

  /** A 32-bit number in network order. */
  function Net32(x: u32): (b: seq<u8>)
    ensures |b| == 4
  {
    [x / 0x100_0000, x / 0x1_0000 % 0x100, x / 0x100 % 0x100, x % 0x100]
  }

  /** The header fields that every packet gets: the flags are cleared. */
  function HeaderBytes(total: nat, typ: u8, sid: u32, kid: u32): (b: seq<u8>)
    requires total <= BUF_SIZE
    ensures |b| == 12
  {
    [MAGIC_HIGH, MAGIC_LOW, VERSION, typ, total / 0x100, total % 0x100, kid % 0x100, 0] + Net32(sid)
  }

  const INVALID_PARAM := -6

  /** vf_fill_header. */
  method FillHeader(buf: array<u8>, total: nat, typ: u8, sid: u32, kid: u32) returns (rc: int)
    requires buf.Length >= HLEN
    modifies buf
    ensures rc == if total > BUF_SIZE then INVALID_PARAM else 0
    ensures buf[..] == if total > BUF_SIZE then old(buf[..])
      else Put(old(buf[..]), 0, HeaderBytes(total, typ, sid, kid))
  {
    if total > BUF_SIZE { return INVALID_PARAM; }
    CopyInto(buf, 0, HeaderBytes(total, typ, sid, kid));
    rc := 0;
  }

  predicate Fits(rawLen: nat, pad: nat) { HLEN + rawLen + pad + OVERHEAD <= BUF_SIZE }

  /**
   * Every padding that can be drawn leaves room for the encrypted packet exactly up to a payload of 1957
   * bytes: the margin that padding leaves is 8 bytes short of nonce and tag.
   */
  lemma PayloadLimit(rawLen: nat)
    ensures (forall pad: nat :: Drawable(rawLen, pad) ==> Fits(rawLen, pad)) <==> rawLen <= LONGEST_SEALED
  {
    if rawLen > LONGEST_SEALED {
      var pad := if Spare(rawLen) > 0 then Min(MAX_PAD, Spare(rawLen)) - 1 else 0;
      assert Drawable(rawLen, pad) && !Fits(rawLen, pad);
    }
  }

  /** A frame before masking: header fields and body in their places. */
  ghost predicate Framed(b: seq<u8>, typ: u8, sid: u32, kid: u32, body: seq<u8>)
  {
    HLEN + |body| <= Min(|b|, BUF_SIZE) && b[..12] == HeaderBytes(HLEN + |body|, typ, sid, kid) &&
    b[HLEN..HLEN + |body|] == body
  }

  lemma FrameIt(b: seq<u8>, typ: u8, sid: u32, kid: u32, body: seq<u8>)
    requires HLEN + |body| <= Min(|b|, BUF_SIZE)
    ensures Framed(Put(Put(b, HLEN, body), 0, HeaderBytes(HLEN + |body|, typ, sid, kid)), typ, sid, kid, body)
    ensures b[HLEN..HLEN + |body|] == body ==>
      Framed(Put(b, 0, HeaderBytes(HLEN + |body|, typ, sid, kid)), typ, sid, kid, body)
  {
    var h := HeaderBytes(HLEN + |body|, typ, sid, kid);
    var c := Put(b, HLEN, body);
    PutRead(b, HLEN, body);
    PutElsewhere(c, 0, h, HLEN, HLEN + |body|);
    PutElsewhere(b, 0, h, HLEN, HLEN + |body|);
    PutRead(c, 0, h);
    PutRead(b, 0, h);
  }

  /** The message is sent as it is: there is no context, or its type is never encrypted. */
  predicate InClear(sec: Option<R.Sec>, typ: u8) { sec.None? || Clear(typ) }

  const LONGEST_SEALED := 1957

  /** The longest payload that is sure to leave room for whatever is added to it. */
  function Longest(sec: Option<R.Sec>, typ: u8): nat
  {
    if InClear(sec, typ) then BUF_SIZE - HLEN else LONGEST_SEALED
  }

  function Added(sec: Option<R.Sec>, typ: u8): nat
  {
    if InClear(sec, typ) then 0 else OVERHEAD
  }

  /** Payload and padding as they stand in the body: clear, or sealed under the active key. */
  ghost predicate Carries(rounds: Rounds, sec: Option<R.Sec>, typ: u8, nonce: seq<u8>, text: Bytes, body: seq<u8>)
  {
    if InClear(sec, typ) then body == text
    else |sec.value.active.raw| == 32 && |nonce| == NONCE &&
         Sealed(Once(rounds, sec.value.active.raw, nonce), nonce, text, body)
  }

  function KidOf(sec: Option<R.Sec>, typ: u8): u32
  {
    if InClear(sec, typ) then 0 else sec.value.active.id
  }

  /** The encryption step of vf_pack. */
  method PackBody(rounds: Rounds, sec: Option<R.Sec>, nonce: seq<u8>, buf: array<u8>, len: nat, typ: u8)
    returns (outLen: nat, ghost body: seq<u8>)
    requires buf.Length >= BUF_SIZE && HLEN + len + Added(sec, typ) <= BUF_SIZE && |nonce| == NONCE
    requires sec.Some? ==> |sec.value.active.raw| == 32
    modifies buf
    ensures outLen == |body| == len + Added(sec, typ)
    ensures Carries(rounds, sec, typ, nonce, old(buf[..])[HLEN..HLEN + len], body)
    ensures buf[..] == Put(old(buf[..]), HLEN, body)
  {
    if InClear(sec, typ) {
      body := buf[HLEN..HLEN + len];
      PutSame(buf[..], HLEN, body);
      outLen := len;
    } else {
      outLen, body := Encrypt(rounds, sec.value.active.raw, nonce, buf, HLEN, HLEN, len);
    }
  }

  /** The padding step of vf_pack. */
  method PackPadding(next: Generator, seed: u32, buf: array<u8>, plen: nat)
    returns (len: nat, ghost noise: seq<u8>)
    requires buf.Length >= BUF_SIZE && HLEN + plen <= BUF_SIZE
    modifies buf
    ensures noise == Padding(next, seed, plen) && len == plen + |noise| && HLEN + len <= BUF_SIZE
    ensures buf[..][HLEN..HLEN + len] == old(buf[..])[HLEN..HLEN + plen] + noise
  {
    ghost var was := buf[..];
    var padded, seed2;
    padded, seed2, noise := ApplyPadding(next, seed, buf, plen);
    if plen > 0 { PaddedFields(was, plen, noise); }
    len := padded;
  }

  /** Encryption and header. */
  method PackFrame(rounds: Rounds, sec: Option<R.Sec>, nonce: seq<u8>, buf: array<u8>, len: nat, typ: u8, sid: u32)
    returns (tlen: nat, ghost body: seq<u8>)
    requires buf.Length >= BUF_SIZE && HLEN + len + Added(sec, typ) <= BUF_SIZE && |nonce| == NONCE
    requires sec.Some? ==> |sec.value.active.raw| == 32
    modifies buf
    ensures Carries(rounds, sec, typ, nonce, old(buf[..])[HLEN..HLEN + len], body)
    ensures tlen == HLEN + |body| <= BUF_SIZE && Framed(buf[..], typ, sid, KidOf(sec, typ), body)
  {
    hide Carries, HeaderBytes;
    ghost var was := buf[..];
    var outLen;
    outLen, body := PackBody(rounds, sec, nonce, buf, len, typ);
    tlen := HLEN + outLen;
    var rc := FillHeader(buf, tlen, typ, sid, KidOf(sec, typ));
    FrameIt(was, typ, sid, KidOf(sec, typ), body);
  }

  /** vf_pack, with the generator state and the nonce to use as inputs. */
  method Pack(rounds: Rounds, sec: Option<R.Sec>, next: Generator, seed: u32, nonce: seq<u8>, buf: array<u8>,
              plen: nat, maxSize: int, typ: u8, sid: u32)
    returns (tlen: int, ghost noise: seq<u8>, ghost body: seq<u8>)
    requires buf.Length >= BUF_SIZE && plen <= Longest(sec, typ) && |nonce| == NONCE
    requires sec.Some? ==> |sec.value.active.raw| == 32
    modifies buf
    ensures noise == Padding(next, seed, plen) && HLEN + plen + |noise| <= BUF_SIZE
    ensures Carries(rounds, sec, typ, nonce, old(buf[..])[HLEN..HLEN + plen] + noise, body)
    ensures HLEN + |body| <= BUF_SIZE && tlen == if HLEN + |body| > maxSize then -1 else HLEN + |body|
    ensures tlen >= 0 ==> Framed(Masked(buf[..]), typ, sid, KidOf(sec, typ), body)
  {
    hide Carries, Masked, Framed;
    var len;
    len, noise := PackPadding(next, seed, buf, plen);
    PayloadLimit(plen);
    tlen, body := PackFrame(rounds, sec, nonce, buf, len, typ, sid);
    if tlen > maxSize { return -1, noise, body; }
    MaskedTwice(buf[..]);
    ApplyMask(buf, tlen);
  }

  /** Where the header's fields are in a frame. */
  lemma FrameFields(b: seq<u8>, typ: u8, sid: u32, kid: u32, body: seq<u8>)
    requires Framed(b, typ, sid, kid, body)
    ensures b[TYPE] == typ && b[KEY_ID] == kid % 0x100 && b[FLAGS] == 0 && b[SID..SID + 4] == Net32(sid)
  {
    var h := HeaderBytes(HLEN + |body|, typ, sid, kid);
    assert b[TYPE] == h[TYPE] && b[KEY_ID] == h[KEY_ID] && b[FLAGS] == h[FLAGS];
    assert b[SID..SID + 4] == h[SID..SID + 4];
  }

  /** The keys of a context have the length of a key. */
  predicate KeysOk(sec: R.Sec) { |sec.active.raw| == 32 && |sec.previous.raw| == 32 }

  /** What vf_unpack makes of the body of a packet of rlen bytes: its text, or nothing. */
  ghost function OpenBody(rounds: Rounds, sec: Option<R.Sec>, b: seq<u8>, rlen: nat): (r: Option<Bytes>)
    requires HLEN + rlen <= |b| && rlen < SIZE_END && (sec.Some? ==> KeysOk(sec.value))
  {
    if Clear(b[TYPE]) then Some(b[HLEN..HLEN + rlen])
    else if sec.None? then None
    else match R.DecryptKey(sec.value, b[KEY_ID])
      case None => None
      case Some(key) =>
        if rlen >= OVERHEAD && Authentic(rounds, key, b, HLEN, rlen - OVERHEAD)
        then Some(Plain(rounds, key, b, HLEN, rlen - OVERHEAD)) else None
  }

  /** The decryption step of vf_unpack. */
  method UnpackBody(rounds: Rounds, sec: Option<R.Sec>, buf: array<u8>, rlen: nat) returns (ok: bool, dlen: nat)
    requires HLEN + rlen <= buf.Length && rlen < SIZE_END && (sec.Some? ==> KeysOk(sec.value))
    modifies buf
    ensures match OpenBody(rounds, sec, old(buf[..]), rlen)
            case None => !ok && unchanged(buf)
            case Some(text) => ok && dlen == |text| && buf[..] == Put(old(buf[..]), HLEN, text)
  {
    hide Authentic, Plain;
    if Clear(buf[TYPE]) {
      PutSame(buf[..], HLEN, buf[..][HLEN..HLEN + rlen]);
      return true, rlen;
    }
    if sec.None? { return false, 0; }
    var key := R.DecryptKey(sec.value, buf[KEY_ID]);
    if key.None? { return false, 0; }
    var rc;
    rc, dlen := Decrypt(rounds, key.value, buf, HLEN, rlen, HLEN);
    ok := rc == 0;
  }

  /** vf_unpack: the payload starts behind the header and has outLen bytes. */
  method Unpack(rounds: Rounds, sec: Option<R.Sec>, buf: array<u8>, res: int) returns (ok: bool, outLen: nat)
    requires HLEN <= buf.Length && res <= buf.Length && res < SIZE_END && (sec.Some? ==> KeysOk(sec.value))
    modifies buf
    ensures res < HLEN ==> !ok && unchanged(buf)
    ensures res >= HLEN ==>
      match OpenBody(rounds, sec, old(buf[..]), res - HLEN)
      case None => !ok && unchanged(buf)
      case Some(text) =>
        var padded, pad := old(buf[FLAGS]) % 2 == 1, old(buf[PAD_LEN]) as nat;
        if padded && |text| < pad then !ok
        else ok && outLen == (if padded then |text| - pad else |text|) &&
             buf[HLEN..HLEN + outLen] == text[..outLen] && buf[TYPE] == old(buf[TYPE]) &&
             buf[KEY_ID] == old(buf[KEY_ID]) &&
             buf[SID..SID + 4] == old(buf[SID..SID + 4])
  {
    hide OpenBody;
    if res < HLEN { return false, 0; }
    ghost var was := buf[..];
    var dlen;
    ok, dlen := UnpackBody(rounds, sec, buf, res - HLEN);
    if !ok { return false, 0; }
    ghost var text := OpenBody(rounds, sec, was, res - HLEN).value;
    ghost var mid := buf[..];
    HeaderKept(was, text);
    var rc, tlen := RemovePadding(buf, HLEN + dlen);
    if rc != 0 { return false, 0; }
    outLen := tlen - HLEN;
    assert buf[HLEN..HLEN + outLen] == mid[HLEN..HLEN + dlen][..outLen];
    assert buf[SID..SID + 4] == mid[SID..SID + 4];
  }

  lemma HeaderKept(b: seq<u8>, text: seq<u8>)
    requires HLEN + |text| <= |b|
    ensures var c := Put(b, HLEN, text);
            |c| == |b| && c[HLEN..HLEN + |text|] == text && c[TYPE] == b[TYPE] && c[KEY_ID] == b[KEY_ID] &&
            c[FLAGS] == b[FLAGS] && c[PAD_LEN] == b[PAD_LEN] && c[SID..SID + 4] == b[SID..SID + 4]
  {
  }

  /** A body that carries a text opens to that text under a context that has the key. */
  lemma CarriedOpens(rounds: Rounds, sec: Option<R.Sec>, peer: Option<R.Sec>, typ: u8, sid: u32, nonce: seq<u8>,
                     text: Bytes, body: seq<u8>, b: seq<u8>)
    requires Carries(rounds, sec, typ, nonce, text, body) && Framed(b, typ, sid, KidOf(sec, typ), body)
    requires peer.Some? ==> KeysOk(peer.value)
    requires !Clear(typ) ==> Matching(sec, peer)
    ensures OpenBody(rounds, peer, b, |body|) == Some(text)
  {
    hide Sealed, Authentic, Plain, HeaderBytes;
    FrameFields(b, typ, sid, KidOf(sec, typ), body);
    if !Clear(typ) {
      SealedOpens(rounds, sec.value.active.raw, nonce, text, body, b, HLEN);
    }
  }

  /** The peer finds the sender's active key under the id on the wire. */
  predicate Matching(sec: Option<R.Sec>, peer: Option<R.Sec>)
  {
    sec.Some? && peer.Some? && R.DecryptKey(peer.value, sec.value.active.id % 0x100) == Some(sec.value.active.raw)
  }

  /**
   * Packing, unmasking and unpacking one packet: type, session id and key id come through, and what is
   * delivered is the payload followed by its padding, which the receiver cannot tell apart since packing
   * clears the flags.
   */
  method Transfer(rounds: Rounds, sec: Option<R.Sec>, peer: Option<R.Sec>, next: Generator, seed: u32, nonce: seq<u8>,
                  buf: array<u8>, plen: nat, typ: u8, sid: u32)
    returns (ok: bool, outLen: nat, ghost noise: seq<u8>)
    requires buf.Length == BUF_SIZE && plen <= Longest(sec, typ) && |nonce| == NONCE
    requires sec.Some? ==> |sec.value.active.raw| == 32
    requires peer.Some? ==> KeysOk(peer.value)
    requires !Clear(typ) ==> Matching(sec, peer)
    modifies buf
    ensures noise == Padding(next, seed, plen) && ok && outLen == plen + |noise| && HLEN + outLen <= BUF_SIZE
    ensures outLen == plen <==> PadLen(next, seed, plen) == 0
    ensures buf[HLEN..HLEN + outLen] == old(buf[..])[HLEN..HLEN + plen] + noise
    ensures buf[TYPE] == typ && buf[KEY_ID] == KidOf(sec, typ) % 0x100 && buf[SID..SID + 4] == Net32(sid)
  {
    hide Carries, Masked, OpenBody, Matching;
    ghost var text := buf[..][HLEN..HLEN + plen];
    var tlen;
    ghost var body;
    tlen, noise, body := Pack(rounds, sec, next, seed, nonce, buf, plen, BUF_SIZE, typ, sid);
    ghost var frame := Masked(buf[..]);
    FrameFields(frame, typ, sid, KidOf(sec, typ), body);
    CarriedOpens(rounds, sec, peer, typ, sid, nonce, text + noise, body, frame);
    RemoveMask(buf, tlen);
    ok, outLen := Unpack(rounds, peer, buf, tlen);
    assert (text + noise)[..outLen] == text + noise;
  }

  /** The state in which every thread starts. */
  const FIRST_SEED: u32 := 0x5EED5EED

  lemma FirstNumber()
    ensures XorShift(FIRST_SEED) == 0x53200AD5
  {
    var x: bv32, y: bv32 := 0x5EED5EED, 0x53200AD5;
    FirstScrambled();
    SameWord(x, y);
    hide Scrambled;
    assert XorShift(x as u32) == y as u32;
  }

  lemma SameWord(x: bv32, y: bv32)
    ensures (x as u32) as bv32 == x
    ensures x == 0x5EED5EED ==> x as u32 == 0x5EED5EED
    ensures y == 0x53200AD5 ==> y as u32 == 0x53200AD5
  {
  }

  lemma FirstScrambled()
    ensures Scrambled(0x5EED5EED) == 0x53200AD5
  {
  }

  /** The padding that the first packet of a thread gets. */
  lemma FirstPadding(rawLen: nat)
    requires 0 < rawLen <= LONGEST_SEALED
    ensures PadLen(XorShift, FIRST_SEED, rawLen) == 21
  {
    hide XorShift;
    FirstNumber();
  }

  /** With the source's own generator, the first packet of a thread is delivered 21 bytes too long. */
  method FirstTransfer(rounds: Rounds, sec: Option<R.Sec>, peer: Option<R.Sec>, nonce: seq<u8>, buf: array<u8>,
                       plen: nat, typ: u8, sid: u32)
    returns (ok: bool, outLen: nat)
    requires buf.Length == BUF_SIZE && 0 < plen <= LONGEST_SEALED && |nonce| == NONCE
    requires sec.Some? ==> |sec.value.active.raw| == 32
    requires peer.Some? ==> KeysOk(peer.value)
    requires !Clear(typ) ==> Matching(sec, peer)
    modifies buf
    ensures ok && outLen == plen + 21 && HLEN + plen <= BUF_SIZE
    ensures buf[HLEN..HLEN + plen] == old(buf[HLEN..HLEN + plen])
  {
    hide Matching, PadLen;
    ghost var noise;
    FirstPadding(plen);
    ok, outLen, noise := Transfer(rounds, sec, peer, XorShift, FIRST_SEED, nonce, buf, plen, typ, sid);
    SliceTake(buf[..], HLEN, plen, outLen);
  }
}
