/**
 * A one-way channel whose key moves on with every message: any stream cipher, authenticator and key update,
 * with the receiver moving on exactly when it accepts.
 */
module SecureChannel {
  import opened Words

  const SIZE_END := 0x1_0000_0000_0000_0000

  type Bytes = b: seq<u8> | |b| < SIZE_END witness []

  datatype Scheme<!K> = Scheme(encipher: (K, Bytes) -> Bytes, tag: (K, Bytes, Bytes) -> nat, advance: K -> K)

  datatype Message = Message(ad: Bytes, text: Bytes)

  /** A message as sent; the tag as the number its bytes stand for. */
  datatype Box = Box(ad: Bytes, text: Bytes, tag: nat)

  function Seal<K>(s: Scheme<K>, k: K, m: Message): Box
  {
    var text := s.encipher(k, m.text);
    Box(m.ad, text, s.tag(k, m.ad, text))
  }

  predicate Genuine<K>(s: Scheme<K>, k: K, b: Box) { b.tag == s.tag(k, b.ad, b.text) }

  /** What reaches the receiver: the sender's next message, or anything else. */
  datatype Arrival = Sent(message: Message) | Foreign(box: Box)

  /** The keys of both ends and the texts accepted so far. */
  datatype Link<K> = Link(sender: K, receiver: K, texts: seq<Bytes>)

  function Read<K>(s: Scheme<K>, l: Link<K>, b: Box): Link<K>
  {
    if Genuine(s, l.receiver, b)
    then l.(receiver := s.advance(l.receiver), texts := l.texts + [s.encipher(l.receiver, b.text)])
    else l
  }

  function Arrive<K>(s: Scheme<K>, l: Link<K>, a: Arrival): Link<K>
  {
    match a
    case Sent(m) => Read(s, l.(sender := s.advance(l.sender)), Seal(s, l.sender, m))
    case Foreign(b) => Read(s, l, b)
  }

  function Run<K>(s: Scheme<K>, l: Link<K>, arrivals: seq<Arrival>): Link<K>
    decreases |arrivals|
  {
    if arrivals == [] then l else Run(s, Arrive(s, l, arrivals[0]), arrivals[1..])
  }

  function SentTexts(arrivals: seq<Arrival>): seq<Bytes>
  {
    if arrivals == [] then []
    else (if arrivals[0].Sent? then [arrivals[0].message.text] else []) + SentTexts(arrivals[1..])
  }

  /** No foreign box carries the tag that the receiver expects when it arrives. */
  predicate NoForgery<K>(s: Scheme<K>, l: Link<K>, arrivals: seq<Arrival>)
    decreases |arrivals|
  {
    arrivals == [] ||
    ((arrivals[0].Foreign? ==> !Genuine(s, l.receiver, arrivals[0].box)) &&
     NoForgery(s, Arrive(s, l, arrivals[0]), arrivals[1..]))
  }

  ghost predicate SelfInverse<K(!new)>(s: Scheme<K>)
  {
    forall k, text {:trigger s.encipher(k, s.encipher(k, text))} :: s.encipher(k, s.encipher(k, text)) == text
  }

  /** One arrival. */
  lemma ArriveInStep<K(!new)>(s: Scheme<K>, l: Link<K>, a: Arrival)
    requires SelfInverse(s) && l.sender == l.receiver && (a.Foreign? ==> !Genuine(s, l.receiver, a.box))
    ensures Arrive(s, l, a).sender == Arrive(s, l, a).receiver
    ensures Arrive(s, l, a).texts == l.texts + if a.Sent? then [a.message.text] else []
  {
    if a.Sent? {
      assert s.encipher(l.sender, s.encipher(l.sender, a.message.text)) == a.message.text;
    }
  }

  /**
   * Two ends that start equal stay equal, and every text sent is recovered in order, whatever other boxes
   * arrive in between and are rejected.
   */
  lemma {:induction false} InStep<K(!new)>(s: Scheme<K>, l: Link<K>, arrivals: seq<Arrival>)
    requires SelfInverse(s) && l.sender == l.receiver && NoForgery(s, l, arrivals)
    ensures Run(s, l, arrivals).sender == Run(s, l, arrivals).receiver
    ensures Run(s, l, arrivals).texts == l.texts + SentTexts(arrivals)
    decreases |arrivals|
  {
    if arrivals != [] {
      hide Arrive, Genuine, SelfInverse;
      var a, rest := arrivals[0], arrivals[1..];
      ArriveInStep(s, l, a);
      InStep(s, Arrive(s, l, a), rest);
      assert l.texts + (if a.Sent? then [a.message.text] else []) + SentTexts(rest) == l.texts + SentTexts(arrivals);
    }
  }
}
