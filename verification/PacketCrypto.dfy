/** Encryption of a packet inside its own buffer: nonce, text and tag, each in its place. */
module PacketCrypto {
  import opened Words
  import opened ChaCha20
  import opened Aead
  import opened SecureChannel

  const NONCE := 24
  const TAG := 16
  const OVERHEAD := 40

  /** The channel of a single message. */
  function Once(rounds: Rounds, key: seq<u8>, nonce: seq<u8>): Channel
    requires |key| == 32 && |nonce| == NONCE
  {
    InitX(rounds, key, nonce)
  }

  /** The packet of a text: the nonce, the enciphered text and its tag. */
  ghost predicate Sealed(ch: Channel, nonce: seq<u8>, text: Bytes, packet: seq<u8>)
  {
    |nonce| == NONCE && |packet| == |text| + OVERHEAD && packet[..NONCE] == nonce &&
    packet[NONCE..NONCE + |text|] == Encipher(ch, text) &&
    BytesVal(packet[NONCE + |text|..]) == TagOf(ch, [], Encipher(ch, text))
  }

  /** There is only one such packet. */
  lemma SealedUnique(ch: Channel, nonce: seq<u8>, text: Bytes, p: seq<u8>, q: seq<u8>)
    requires Sealed(ch, nonce, text, p) && Sealed(ch, nonce, text, q)
    ensures p == q
  {
    var n := NONCE + |text|;
    SameBytes(p[n..], q[n..]);
    ThreeParts(p, NONCE, n);
    ThreeParts(q, NONCE, n);
  }

  lemma ThreeParts(p: seq<u8>, i: nat, j: nat)
    requires i <= j <= |p|
    ensures p == p[..i] + p[i..j] + p[j..]
  {
  }

  /** memcpy and memmove into a buffer. */
  method CopyInto(buf: array<u8>, at: nat, data: seq<u8>)
    requires at + |data| <= buf.Length
    modifies buf
    ensures buf[..] == Put(old(buf[..]), at, data)
  {
    ghost var was := buf[..];
    for i := 0 to |data|
      invariant buf[..] == Put(was, at, data[..i])
    {
      PutSnoc(was, at, data[..i], data[i]);
      assert data[..i + 1] == data[..i] + [data[i]];
      buf[at + i] := data[i];
    }
    assert data[..|data|] == data;
  }

  /** crypto_aead_lock without associated data. */
  method Lock(rounds: Rounds, key: seq<u8>, nonce: seq<u8>, buf: array<u8>, to: nat, from: nat, n: nat)
    returns (mac: seq<u8>)
    requires |key| == 32 && |nonce| == NONCE && n < SIZE_END
    requires to + n <= buf.Length && from + n <= buf.Length && Forward(to, from, n)
    modifies buf
    ensures var ch := Once(rounds, key, nonce);
            var text := Encipher(ch, old(buf[..])[from..from + n]);
            buf[..] == Put(old(buf[..]), to, text) && |mac| == TAG && BytesVal(mac) == TagOf(ch, [], text)
  {
    var ctx := new Context(rounds, key, nonce);
    mac := ctx.Write(buf, to, from, n, []);
  }

  lemma PutTwice(b: seq<u8>, at: nat, x: seq<u8>, y: seq<u8>)
    requires |x| == |y| && at + |x| <= |b|
    ensures Put(Put(b, at, x), at, y) == Put(b, at, y)
  {
  }

  lemma PutAfter(b: seq<u8>, at: nat, x: seq<u8>, y: seq<u8>)
    requires at + |x| + |y| <= |b|
    ensures Put(Put(b, at, x), at + |x|, y) == Put(b, at, x + y)
    ensures Put(Put(b, at + |x|, y), at, x) == Put(b, at, x + y)
  {
  }

  /** What the writes of an encryption come to. */
  lemma Assemble(was: seq<u8>, at: nat, nonce: seq<u8>, text: seq<u8>, mac: seq<u8>)
    requires at + |nonce| + |text| + |mac| <= |was|
    ensures Put(Put(Put(was, at + |nonce|, text), at + |nonce| + |text|, mac), at, nonce)
      == Put(was, at, nonce + text + mac)
  {
    PutAfter(was, at + |nonce|, text, mac);
    PutAfter(was, at, nonce, text + mac);
    assert nonce + (text + mac) == nonce + text + mac;
  }

  lemma SealedParts(ch: Channel, nonce: seq<u8>, text: Bytes, mac: seq<u8>)
    requires |nonce| == NONCE && |mac| == TAG && BytesVal(mac) == TagOf(ch, [], Encipher(ch, text))
    ensures Sealed(ch, nonce, text, nonce + Encipher(ch, text) + mac)
  {
    var c := Encipher(ch, text);
    var p := nonce + c + mac;
    assert p[..NONCE] == nonce && p[NONCE..NONCE + |text|] == c && p[NONCE + |text|..] == mac;
  }

  /** The text at src, enciphered where the packet at at has its text. */
  method EncryptText(rounds: Rounds, key: seq<u8>, nonce: seq<u8>, buf: array<u8>, src: nat, at: nat, len: nat)
    returns (mac: seq<u8>, ghost text: Bytes)
    requires |key| == 32 && |nonce| == NONCE && len < SIZE_END
    requires src + len <= buf.Length && at + len + OVERHEAD <= buf.Length
    requires src == at || src + len <= at || at + len + OVERHEAD <= src
    modifies buf
    ensures var ch := Once(rounds, key, nonce);
            text == Encipher(ch, old(buf[..])[src..src + len]) && |text| == len &&
            buf[..] == Put(old(buf[..]), at + NONCE, text) && |mac| == TAG && BytesVal(mac) == TagOf(ch, [], text)
  {
    hide TagOf, Encipher, Put, Once;
    ghost var was := buf[..];
    text := Encipher(Once(rounds, key, nonce), was[src..src + len]);
    if src == at {
      var plain := buf[src..src + len];
      CopyInto(buf, at + NONCE, plain);
      PutRead(was, at + NONCE, plain);
      PutTwice(was, at + NONCE, plain, Encipher(Once(rounds, key, nonce), plain));
      mac := Lock(rounds, key, nonce, buf, at + NONCE, at + NONCE, len);
    } else {
      mac := Lock(rounds, key, nonce, buf, at + NONCE, src, len);
    }
  }

  /**
   * vf_encrypt: the text at src becomes a packet at at. With src equal to at, the text is moved first; the
   * packet is the same as from a text elsewhere, and nothing else changes.
   */
  method Encrypt(rounds: Rounds, key: seq<u8>, nonce: seq<u8>, buf: array<u8>, src: nat, at: nat, len: nat)
    returns (outLen: nat, ghost packet: seq<u8>)
    requires |key| == 32 && |nonce| == NONCE && len < SIZE_END
    requires src + len <= buf.Length && at + len + OVERHEAD <= buf.Length
    requires src == at || src + len <= at || at + len + OVERHEAD <= src
    modifies buf
    ensures outLen == len + OVERHEAD
    ensures Sealed(Once(rounds, key, nonce), nonce, old(buf[..])[src..src + len], packet)
    ensures buf[..] == Put(old(buf[..]), at, packet)
  {
    hide TagOf, Encipher;
    ghost var was := buf[..];
    var mac;
    ghost var text;
    mac, text := EncryptText(rounds, key, nonce, buf, src, at, len);
    Wrap(buf, was, at, len, nonce, text, mac);
    packet := nonce + text + mac;
    SealedParts(Once(rounds, key, nonce), nonce, was[src..src + len], mac);
    outLen := NONCE + len + TAG;
  }

  /** Tag and nonce go around the text. */
  method Wrap(buf: array<u8>, ghost was: seq<u8>, at: nat, len: nat, nonce: seq<u8>, ghost text: seq<u8>, mac: seq<u8>)
    requires |nonce| == NONCE && |mac| == TAG && |text| == len && at + len + OVERHEAD <= |was|
    requires buf[..] == Put(was, at + NONCE, text)
    modifies buf
    ensures buf[..] == Put(was, at, nonce + text + mac)
  {
    CopyInto(buf, at + NONCE + len, mac);
    CopyInto(buf, at, nonce);
    Assemble(was, at, nonce, text, mac);
  }

  /** The packet with n bytes of text at p in b carries the right tag. */
  ghost predicate Authentic(rounds: Rounds, key: seq<u8>, b: seq<u8>, p: nat, n: nat)
    requires |key| == 32 && p + n + OVERHEAD <= |b| && n < SIZE_END
  {
    var ch := Once(rounds, key, b[p..p + NONCE]);
    BytesVal(b[p + NONCE + n..p + n + OVERHEAD]) == TagOf(ch, [], b[p + NONCE..p + NONCE + n])
  }

  /** The text of that packet. */
  ghost function Plain(rounds: Rounds, key: seq<u8>, b: seq<u8>, p: nat, n: nat): (text: Bytes)
    requires |key| == 32 && p + n + OVERHEAD <= |b| && n < SIZE_END
    ensures |text| == n
  {
    Encipher(Once(rounds, key, b[p..p + NONCE]), b[p + NONCE..p + NONCE + n])
  }

  /**
   * vf_decrypt: the text of the packet at p goes to out, which may lie before the packet's text. A packet
   * that is too short or has a wrong tag leaves the buffer as it is and reports length 0.
   */
  method Decrypt(rounds: Rounds, key: seq<u8>, buf: array<u8>, p: nat, packetLen: nat, out: nat)
    returns (rc: int, outLen: nat)
    requires |key| == 32 && p + packetLen <= buf.Length && packetLen < SIZE_END
    requires packetLen >= OVERHEAD ==>
      out + packetLen - OVERHEAD <= buf.Length && Forward(out, p + NONCE, packetLen - OVERHEAD)
    modifies buf
    ensures packetLen < OVERHEAD ==> rc == -1 && outLen == 0 && unchanged(buf)
    ensures packetLen >= OVERHEAD ==>
      var was, n := old(buf[..]), packetLen - OVERHEAD;
      if Authentic(rounds, key, was, p, n)
      then rc == 0 && outLen == n && buf[..] == Put(was, out, Plain(rounds, key, was, p, n))
      else rc == -2 && outLen == 0 && unchanged(buf)
  {
    hide TagOf, Encipher;
    if packetLen < OVERHEAD { return -1, 0; }
    outLen := packetLen - OVERHEAD;
    var ctx := new Context(rounds, key, buf[p..p + NONCE]);
    rc := ctx.Read(buf, out, p + NONCE, outLen, buf[p + NONCE + outLen..p + outLen + OVERHEAD], []);
    if rc != 0 { return -2, 0; }
  }

  /** A sealed packet in a buffer has the right tag and opens to its text. */
  lemma SealedOpens(rounds: Rounds, key: seq<u8>, nonce: seq<u8>, text: Bytes, packet: seq<u8>, b: seq<u8>, p: nat)
    requires |key| == 32 && |nonce| == NONCE && Sealed(Once(rounds, key, nonce), nonce, text, packet)
    requires p + |packet| <= |b| && b[p..p + |packet|] == packet
    ensures |packet| == |text| + OVERHEAD
    ensures Authentic(rounds, key, b, p, |text|) && Plain(rounds, key, b, p, |text|) == text
  {
    hide TagOf, Encipher;
    PacketParts(b, p, |text|);
    EncipherTwice(Once(rounds, key, nonce), text);
  }

  lemma PacketParts(b: seq<u8>, p: nat, n: nat)
    requires p + n + OVERHEAD <= |b|
    ensures var packet := b[p..p + n + OVERHEAD];
            packet[..NONCE] == b[p..p + NONCE] && packet[NONCE..NONCE + n] == b[p + NONCE..p + NONCE + n] &&
            packet[NONCE + n..] == b[p + NONCE + n..p + n + OVERHEAD]
  {
  }

  /** The state behind get_fast_nonce: the prefix as read so far, whether all of it was read, and a counter. */
  datatype Nonces = Nonces(prefix: seq<u8>, initialized: bool, counter: u64)

  const FRESH: Nonces := Nonces(Zeros(16), false, 0)

  /** The state after a call during which the random source would deliver read. */
  function Drawn(s: Nonces, read: seq<u8>): (r: Nonces)
    requires |s.prefix| == 16 && |read| <= 16
    ensures |r.prefix| == 16
  {
    var t := if s.initialized then s else s.(prefix := read + s.prefix[|read|..], initialized := |read| == 16);
    t.(counter := (s.counter + 1) % SIZE_END)
  }

  /** The nonce of such a call. */
  function NonceOf(s: Nonces, read: seq<u8>): (nonce: seq<u8>)
    requires |s.prefix| == 16 && |read| <= 16
    ensures |nonce| == NONCE
  {
    Drawn(s, read).prefix + Store64(s.counter)
  }

  /** get_fast_nonce. The prefix is read until 16 bytes come at once; a short read keeps what it brought. */
  class NonceSource {
    var prefix: seq<u8>
    var initialized: bool
    var counter: u64

    function View(): Nonces
      reads this
    {
      Nonces(prefix, initialized, counter)
    }

    constructor ()
      ensures View() == FRESH
    {
      prefix, initialized, counter := Zeros(16), false, 0;
    }

    method Next(read: seq<u8>) returns (nonce: seq<u8>)
      requires |prefix| == 16 && |read| <= 16
      modifies this
      ensures nonce == NonceOf(old(View()), read) && View() == Drawn(old(View()), read)
    {
      if !initialized {
        prefix := read + prefix[|read|..];
        if |read| == 16 { initialized := true; }
      }
      nonce := prefix + Store64(counter);
      counter := (counter + 1) % SIZE_END;
    }
  }

  /** The state after calls during which the random source would deliver these. */
  function After(random: seq<seq<u8>>): (s: Nonces)
    requires forall r :: r in random ==> |r| <= 16
    ensures |s.prefix| == 16
  {
    if random == [] then FRESH else Drawn(After(random[..|random| - 1]), random[|random| - 1])
  }

  lemma {:induction false} CallsCounted(random: seq<seq<u8>>)
    requires |random| < SIZE_END && forall r :: r in random ==> |r| <= 16
    ensures After(random).counter == |random|
  {
    if random != [] { CallsCounted(random[..|random| - 1]); }
  }

  /** Equal nonces have the same prefix and the same counter. */
  lemma NonceParts(p: seq<u8>, a: u64, q: seq<u8>, b: u64)
    requires |p| == |q| && p + Store64(a) == q + Store64(b)
    ensures p == q && a == b
  {
    var n, x, y := |p|, p + Store64(a), q + Store64(b);
    assert x[..n] == p && y[..n] == q && x[n..] == Store64(a) && y[n..] == Store64(b);
    assert Store64(a)[..4] == Store32(a % 0x1_0000_0000) && Store64(a)[4..] == Store32(a / 0x1_0000_0000);
    assert Store64(b)[..4] == Store32(b % 0x1_0000_0000) && Store64(b)[4..] == Store32(b / 0x1_0000_0000);
  }

  /** No two of the first 2^64 calls give the same nonce, whatever the random source delivers, even nothing. */
  lemma NoncesDiffer(random: seq<seq<u8>>, i: nat, j: nat)
    requires i < j < |random| <= SIZE_END && forall r :: r in random ==> |r| <= 16
    ensures NonceOf(After(random[..i]), random[i]) != NonceOf(After(random[..j]), random[j])
  {
    hide Store64;
    var s, t := After(random[..i]), After(random[..j]);
    CallsCounted(random[..i]);
    CallsCounted(random[..j]);
    if NonceOf(s, random[i]) == NonceOf(t, random[j]) {
      NonceParts(Drawn(s, random[i]).prefix, i, Drawn(t, random[j]).prefix, j);
    }
  }
}
