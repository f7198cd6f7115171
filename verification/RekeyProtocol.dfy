/**
 * The rekey protocol between one client and the server: two packet queues that deliver in order and may
 * lose packets, but neither duplicate nor reorder them. Requests may be retransmitted at any time while
 * they are unanswered. The client commits on every acknowledgement, as the source does.
 */
module RekeyProtocol {
  import opened Common
  import opened Words
  import opened Rekey

  /** What a packet is about: a request carries the key it proposes, an acknowledgement the id of that key. */
  datatype Body = Data | Request(key: Key) | Ack(id: u32)

  /** A packet under key `under`: only the low byte of its id is on the wire, the key itself is not. */
  datatype Packet = Packet(under: Key, body: Body) {
    function WireKid(): u8 { under.id % 0x100 }
  }

  datatype State = State(client: Sec, server: Sec, toServer: seq<Packet>, toClient: seq<Packet>)

  datatype Event =
    | ClientInit(random: Option<seq<u8>>) // the key is used up: stage a new one and ask for it
    | ClientRetry                         // an unanswered request is repeated
    | ClientData                          // any other packet of the client
    | ServerData                          // any other packet of the server
    | ServerReceive
    | ClientReceive
    | LoseToServer(i: nat)
    | LoseToClient(i: nat)

  /** Right after authentication: both sides hold key 1 and nothing is under way. */
  predicate Initial(s: State)
  {
    s.server.active.id == 1 && s.server.previous == NO_KEY &&
    s.client.active == s.server.active && !s.client.pending &&
    s.toServer == [] && s.toClient == []
  }

  predicate Enabled(s: State, e: Event)
  {
    match e
    case ClientInit(_) => !s.client.pending
    case ClientRetry => s.client.pending
    case ServerReceive => s.toServer != []
    case ClientReceive => s.toClient != []
    case LoseToServer(i) => i < |s.toServer|
    case LoseToClient(i) => i < |s.toClient|
    case _ => true
  }

  function Apply(s: State, e: Event): State
    requires Enabled(s, e)
  {
    match e
    case ClientInit(None) => s.(client := s.client.(next := NO_KEY))
    case ClientInit(Some(raw)) =>
      var c := Prepared(s.client, raw);
      s.(client := c, toServer := s.toServer + [Packet(c.active, Request(c.next))])
    case ClientRetry => s.(toServer := s.toServer + [Packet(s.client.active, Request(s.client.next))])
    case ClientData => s.(toServer := s.toServer + [Packet(s.client.active, Data)])
    case ServerData => s.(toClient := s.toClient + [Packet(s.server.active, Data)])
    case ServerReceive => ServerTakes(s.(toServer := s.toServer[1..]), s.toServer[0])
    case ClientReceive =>
      var p := s.toClient[0];
      s.(toClient := s.toClient[1..], client := if p.body.Ack? then Committed(s.client) else s.client)
    case LoseToServer(i) => s.(toServer := Without(s.toServer, i))
    case LoseToClient(i) => s.(toClient := Without(s.toClient, i))
  }

  /** server_on_udp: a packet that the selected key does not decrypt is dropped. */
  function ServerTakes(s: State, p: Packet): State
  {
    if DecryptKey(s.server, p.WireKid()) != Some(p.under.raw) || !p.body.Request? || p.body.key.id <= s.server.active.id
    then s
    else s.(server := Accepted(s.server, p.body.key),
            toClient := s.toClient + [Packet(s.server.active, Ack(p.body.key.id))])
  }

  /** All events can happen, one after the other. */
  predicate Runs(s: State, es: seq<Event>)
    decreases |es|
  {
    es == [] || (Enabled(s, es[0]) && Runs(Apply(s, es[0]), es[1..]))
  }

  function End(s: State, es: seq<Event>): State
    requires Runs(s, es)
    decreases |es|
  {
    if es == [] then s else End(Apply(s, es[0]), es[1..])
  }

  /** A packet under way to the server is under one of the two keys the server can tell apart. */
  predicate Readable(s: State, p: Packet)
  {
    p.under.id <= s.client.active.id &&
    (p.under == s.server.active ||
     (p.under.id >= 1 && p.under.id + 1 == s.server.active.id && p.under == s.server.previous))
  }

  /** A request asks for the successor of the key it is under; a current one carries the staged key. */
  predicate RequestOk(s: State, p: Packet)
  {
    p.body.Request? ==>
      p.body.key.id == (p.under.id + 1) % 0x1_0000_0000 &&
      (p.under.id == s.client.active.id ==> s.client.pending && p.body.key == s.client.next)
  }

  predicate Ordered(q: seq<Packet>)
  {
    forall i, j :: 0 <= i < j < |q| ==> q[i].under.id <= q[j].under.id
  }

  /** At most one acknowledgement is under way. */
  predicate OneAck(q: seq<Packet>)
  {
    forall i, j :: 0 <= i < j < |q| ==> !(q[i].body.Ack? && q[j].body.Ack?)
  }

  predicate NoAck(q: seq<Packet>) { forall i :: 0 <= i < |q| ==> !q[i].body.Ack? }

  /** The server is at the client's key, or one ahead with the key the client has staged. */
  predicate Paired(s: State)
  {
    1 <= s.client.active.id &&
    (s.client.active == s.server.active ||
     (s.client.active.id + 1 == s.server.active.id && s.client.pending && s.client.next == s.server.active &&
      s.server.previous == s.client.active))
  }

  /** The server has accepted a key that the client has not committed. */
  predicate Ahead(s: State) { s.client.active != s.server.active }

  /** At most one acknowledgement is under way, and only while the server is ahead. */
  predicate AcksOk(s: State) { OneAck(s.toClient) && (!Ahead(s) ==> NoAck(s.toClient)) }

  predicate InStep(s: State) { Paired(s) && (!Ahead(s) ==> NoAck(s.toClient)) }

  /** While a request is unanswered, the staged key is the successor of the active one. */
  predicate Staged(c: Sec) { c.pending ==> c.next.id == (c.active.id + 1) % 0x1_0000_0000 }

  /** What does not depend on the packets to the client. */
  predicate Core(s: State)
  {
    Paired(s) && Staged(s.client) && Ordered(s.toServer) &&
    (forall i :: 0 <= i < |s.toServer| ==> Readable(s, s.toServer[i]) && RequestOk(s, s.toServer[i]))
  }

  predicate Inv(s: State) { Core(s) && AcksOk(s) }

  lemma SendKeeps(s: State, p: Packet)
    requires Core(s) && p.under == s.client.active && RequestOk(s, p)
    ensures Core(s.(toServer := s.toServer + [p]))
  {
  }

  /** Every element of the shortened queue stood in the longer one, in the same order. */
  lemma WithoutAt<T>(q: seq<T>, i: nat, k: nat)
    requires i < |q| && k < |q| - 1
    ensures Without(q, i)[k] == q[if k < i then k else k + 1]
  {
  }

  lemma LoseToServerKeeps(s: State, i: nat)
    requires Core(s) && i < |s.toServer|
    ensures Core(Apply(s, LoseToServer(i)))
  {
    var q, r := s.toServer, Without(s.toServer, i);
    forall k | 0 <= k < |r| ensures r[k] == q[if k < i then k else k + 1] { WithoutAt(q, i, k); }
  }

  lemma ClientInitKeeps(s: State, e: Event)
    requires Core(s) && Enabled(s, e) && e.ClientInit?
    ensures Core(Apply(s, e))
  {
    if e.random.Some? {
      var c := Prepared(s.client, e.random.value);
      SendKeeps(s.(client := c), Packet(c.active, Request(c.next)));
    }
  }

  lemma ServerReceiveKeeps(s: State)
    requires Core(s) && s.toServer != []
    ensures Core(Apply(s, ServerReceive))
    ensures Apply(s, ServerReceive).server != s.server ==> !Ahead(s)
  {
    var p, rest := s.toServer[0], s.toServer[1..];
    assert Readable(s, p) && RequestOk(s, p);
    var t := Apply(s, ServerReceive);
    if t.server != s.server {
      assert p.under == s.server.active == s.client.active;
      forall i | 0 <= i < |rest| ensures Readable(t, rest[i]) && RequestOk(t, rest[i]) {
        assert rest[i] == s.toServer[i + 1];
      }
    }
  }

  /** The next packet to the client is an acknowledgement. */
  predicate AckNext(s: State) { s.toClient != [] && s.toClient[0].body.Ack? }

  /** Every event keeps the core, provided that an acknowledgement arrives with the server ahead. */
  lemma CoreKeeps(s: State, e: Event)
    requires Core(s) && Enabled(s, e) && (e.ClientReceive? && AckNext(s) ==> Ahead(s))
    ensures Core(Apply(s, e))
  {
    match e
    case ClientInit(_) => ClientInitKeeps(s, e);
    case ClientRetry => SendKeeps(s, Packet(s.client.active, Request(s.client.next)));
    case ClientData => SendKeeps(s, Packet(s.client.active, Data));
    case ServerData =>
    case ServerReceive => ServerReceiveKeeps(s);
    case ClientReceive =>
    case LoseToServer(i) => LoseToServerKeeps(s, i);
    case LoseToClient(i) =>
  }

  lemma AcksKeep(s: State, e: Event)
    requires Inv(s) && Enabled(s, e)
    ensures AcksOk(Apply(s, e))
  {
    var t := Apply(s, e);
    match e
    case ServerReceive => ServerReceiveKeeps(s);
    case ClientReceive => forall i | 0 <= i < |t.toClient| ensures t.toClient[i] == s.toClient[i + 1] {}
    case LoseToClient(i) =>
      var q, r := s.toClient, Without(s.toClient, i);
      forall k | 0 <= k < |r| ensures r[k] == q[if k < i then k else k + 1] { WithoutAt(q, i, k); }
    case _ =>
  }

  /** An acknowledgement finds the server ahead, so every event keeps the invariant. */
  lemma StepKeeps(s: State, e: Event)
    requires Inv(s) && Enabled(s, e)
    ensures Inv(Apply(s, e))
  {
    CoreKeeps(s, e);
    AcksKeep(s, e);
  }

  lemma {:induction false} RunKeeps(s: State, es: seq<Event>)
    requires Inv(s) && Runs(s, es)
    ensures Inv(End(s, es))
    decreases |es|
  {
    if es != [] {
      StepKeeps(s, es[0]);
      RunKeeps(Apply(s, es[0]), es[1..]);
    }
  }

  /**
   * Whatever is lost and however often requests are repeated, the two sides stay in step and the server
   * finds the right key for every packet under way to it.
   */
  lemma Safety(s: State, es: seq<Event>)
    requires Initial(s) && Runs(s, es)
    ensures InStep(End(s, es))
    ensures var t := End(s, es);
            forall p :: p in t.toServer ==> DecryptKey(t.server, p.WireKid()) == Some(p.under.raw)
  {
    RunKeeps(s, es);
    CoreReads(End(s, es));
  }

  /** The server finds the right key for every packet under way to it. */
  lemma CoreReads(s: State)
    requires Core(s)
    ensures forall p :: p in s.toServer ==> DecryptKey(s.server, p.WireKid()) == Some(p.under.raw)
  {
    forall p | p in s.toServer ensures DecryptKey(s.server, p.WireKid()) == Some(p.under.raw) {
      var i :| 0 <= i < |s.toServer| && s.toServer[i] == p;
      assert Readable(s, p);
      DecryptKeyGenerations(s.server, p.under.id, p.under.raw);
    }
  }

  /** The acknowledgement at position k divides the old key's packets from the new key's. */
  predicate Divides(s: State, k: nat)
  {
    k < |s.toClient| && s.toClient[k].body.Ack? &&
    (forall i :: 0 <= i <= k ==> s.toClient[i].under == s.client.active) &&
    (forall i :: k < i < |s.toClient| ==> s.toClient[i].under == s.server.active)
  }

  ghost predicate Delivered(s: State)
  {
    if s.client.active == s.server.active
    then forall i :: 0 <= i < |s.toClient| ==> s.toClient[i].under == s.client.active
    else exists k :: Divides(s, k)
  }

  /** A server that is ahead does not move: every request under way is for a key it already has. */
  lemma ServerFirm(s: State, e: Event)
    requires Inv(s) && Enabled(s, e) && s.client.active != s.server.active
    ensures Apply(s, e).server == s.server
    ensures e.ServerReceive? ==> Apply(s, e).toClient == s.toClient
  {
    if e.ServerReceive? {
      assert Readable(s, s.toServer[0]) && RequestOk(s, s.toServer[0]);
    }
  }

  lemma DeliveredReceive(s: State)
    requires Inv(s) && Delivered(s) && s.toClient != []
    ensures Delivered(Apply(s, ClientReceive))
  {
    var t := Apply(s, ClientReceive);
    forall i | 0 <= i < |t.toClient| ensures t.toClient[i] == s.toClient[i + 1] {}
    if s.client.active != s.server.active {
      var k: nat :| Divides(s, k);
      if k == 0 {
        assert t.client.active == t.server.active;
      } else {
        assert !s.toClient[0].body.Ack?;
        assert Divides(t, k - 1);
      }
    } else {
      assert !s.toClient[0].body.Ack?;
    }
  }

  lemma DeliveredStep(s: State, e: Event)
    requires Inv(s) && Delivered(s) && Enabled(s, e) && !e.LoseToClient?
    ensures Delivered(Apply(s, e))
  {
    var t := Apply(s, e);
    if e.ClientReceive? {
      DeliveredReceive(s);
    } else if s.client.active != s.server.active {
      var k: nat :| Divides(s, k);
      ServerFirm(s, e);
      assert Divides(t, k);
    } else if t.server != s.server {
      assert Divides(t, |s.toClient|);
    }
  }

  predicate KeepsToClient(es: seq<Event>) { forall e :: e in es ==> !e.LoseToClient? }

  lemma {:induction false} DeliveredRun(s: State, es: seq<Event>)
    requires Inv(s) && Delivered(s) && Runs(s, es) && KeepsToClient(es)
    ensures Delivered(End(s, es))
    decreases |es|
  {
    if es != [] {
      StepKeeps(s, es[0]);
      DeliveredStep(s, es[0]);
      DeliveredRun(Apply(s, es[0]), es[1..]);
    }
  }

  /** If nothing is lost on the way to the client, it finds the right key for the next packet to arrive. */
  lemma ClientReads(s: State, es: seq<Event>)
    requires Initial(s) && Runs(s, es) && KeepsToClient(es)
    ensures var t := End(s, es);
            t.toClient != [] ==> DecryptKey(t.client, t.toClient[0].WireKid()) == Some(t.toClient[0].under.raw)
  {
    DeliveredRun(s, es);
  }

  /** The client's previous key, if it has one, is its active key's predecessor. */
  predicate Consecutive(c: Sec) { c.previous.id == 0 || c.previous.id + 1 == c.active.id }

  /** Packets under way to the client are under its active key, or under the one it has not committed. */
  predicate Downlink(s: State)
  {
    Consecutive(s.client) &&
    (forall i :: 0 <= i < |s.toClient| ==> s.toClient[i].under in {s.client.active, s.server.active}) &&
    (forall i, j :: 0 <= i < j < |s.toClient| && s.toClient[i].body.Ack? ==> s.toClient[j].under == s.server.active)
  }

  lemma DownlinkReceive(s: State)
    requires Inv(s) && Downlink(s) && s.toClient != []
    ensures Downlink(Apply(s, ClientReceive))
  {
    var t := Apply(s, ClientReceive);
    forall i | 0 <= i < |t.toClient| ensures t.toClient[i] == s.toClient[i + 1] {}
  }

  lemma DownlinkLoss(s: State, k: nat)
    requires Inv(s) && Downlink(s) && k < |s.toClient|
    ensures Downlink(Apply(s, LoseToClient(k)))
  {
    var q, r := s.toClient, Without(s.toClient, k);
    forall i | 0 <= i < |r| ensures r[i] == q[if i < k then i else i + 1] { WithoutAt(q, k, i); }
  }

  lemma DownlinkStep(s: State, e: Event)
    requires Inv(s) && Downlink(s) && Enabled(s, e)
    ensures Downlink(Apply(s, e))
  {
    if e.ClientReceive? {
      DownlinkReceive(s);
    } else if e.LoseToClient? {
      DownlinkLoss(s, e.i);
    } else if s.client.active != s.server.active {
      ServerFirm(s, e);
    }
  }

  lemma {:induction false} DownlinkRun(s: State, es: seq<Event>)
    requires Inv(s) && Downlink(s) && Runs(s, es)
    ensures Downlink(End(s, es))
    decreases |es|
  {
    if es != [] {
      StepKeeps(s, es[0]);
      DownlinkStep(s, es[0]);
      DownlinkRun(Apply(s, es[0]), es[1..]);
    }
  }

  /**
   * If packets to the client may be lost, it finds the right key for a packet exactly if that packet is
   * under its active key; all others are under the key whose acknowledgement it has not seen.
   */
  lemma ClientReadsLossy(s: State, es: seq<Event>)
    requires Initial(s) && Consecutive(s.client) && Runs(s, es)
    ensures var t := End(s, es);
            forall p :: p in t.toClient ==>
              (DecryptKey(t.client, p.WireKid()) == Some(p.under.raw) <==> p.under.id == t.client.active.id)
  {
    RunKeeps(s, es);
    DownlinkRun(s, es);
    var t := End(s, es);
    forall p | p in t.toClient
      ensures DecryptKey(t.client, p.WireKid()) == Some(p.under.raw) <==> p.under.id == t.client.active.id
    {
      var i :| 0 <= i < |t.toClient| && t.toClient[i] == p;
      assert t.toClient[i].under in {t.client.active, t.server.active};
    }
  }

  /** The server has moved on and its acknowledgement is gone. */
  predicate AckLost(s: State) { s.client.active != s.server.active && NoAck(s.toClient) }

  lemma AckLostStep(s: State, e: Event)
    requires Inv(s) && AckLost(s) && Enabled(s, e)
    ensures AckLost(Apply(s, e))
    ensures Apply(s, e).client == s.client && Apply(s, e).server == s.server
  {
    ServerFirm(s, e);
    if e.LoseToClient? {
      var q, r := s.toClient, Without(s.toClient, e.i);
      forall i | 0 <= i < |r| ensures r[i] == q[if i < e.i then i else i + 1] { WithoutAt(q, e.i, i); }
    }
  }

  /**
   * A lost acknowledgement is never made up for: the server ignores every repeated request, so the two
   * sides keep different active keys in every further run.
   */
  lemma {:induction false} LostAckIsFinal(s: State, es: seq<Event>)
    requires Inv(s) && AckLost(s) && Runs(s, es)
    ensures AckLost(End(s, es))
    ensures End(s, es).client == s.client && End(s, es).server == s.server
    decreases |es|
  {
    if es != [] {
      StepKeeps(s, es[0]);
      AckLostStep(s, es[0]);
      LostAckIsFinal(Apply(s, es[0]), es[1..]);
    }
  }

  /** A run that loses the acknowledgement: one request, accepted, and its answer dropped. */
  lemma AckCanBeLost(s: State, raw: seq<u8>) returns (es: seq<Event>)
    requires Initial(s)
    ensures Runs(s, es) && AckLost(End(s, es))
  {
    var s1 := Apply(s, ClientInit(Some(raw)));
    var s2 := Apply(s1, ServerReceive);
    var s3 := Apply(s2, LoseToClient(0));
    assert Runs(s3, []) && End(s3, []) == s3;
    es := [LoseToClient(0)];
    assert es[1..] == [] && Runs(s2, es) && End(s2, es) == s3;
    es := [ServerReceive] + es;
    assert es[1..] == [LoseToClient(0)] && Runs(s1, es) && End(s1, es) == s3;
    es := [ClientInit(Some(raw))] + es;
    assert es[1..] == [ServerReceive, LoseToClient(0)];
  }

  /** Delivering all that is under way to the client ends the rekey, if the acknowledgement is among it. */
  lemma {:induction false} Drain(s: State) returns (es: seq<Event>)
    requires Inv(s) && !AckLost(s)
    ensures Runs(s, es) && End(s, es).client.active == End(s, es).server.active
    decreases |s.toClient|
  {
    if s.client.active == s.server.active {
      es := [];
    } else {
      var t := Apply(s, ClientReceive);
      StepKeeps(s, ClientReceive);
      assert !AckLost(t) by {
        if t.client.active != t.server.active {
          var k :| 0 <= k < |s.toClient| && s.toClient[k].body.Ack?;
          assert k > 0 && t.toClient[k - 1] == s.toClient[k];
        }
      }
      var rest := Drain(t);
      es := [ClientReceive] + rest;
      assert es[1..] == rest;
    }
  }

  /** Some further run ends with equal keys. */
  ghost predicate Recovers(s: State)
  {
    exists es :: Runs(s, es) && End(s, es).client.active == End(s, es).server.active
  }

  /** The two sides can come together again if and only if the acknowledgement is not lost. */
  lemma Recovery(s: State)
    requires Inv(s)
    ensures Recovers(s) <==> !AckLost(s)
  {
    if AckLost(s) {
      forall es | Runs(s, es) ensures End(s, es).client.active != End(s, es).server.active { LostAckIsFinal(s, es); }
    } else {
      var es := Drain(s);
    }
  }

  /** Without loss towards the client, both sides hold one key whenever nothing is under way to the client. */
  lemma Converges(s: State, es: seq<Event>)
    requires Initial(s) && Runs(s, es) && KeepsToClient(es)
    ensures var t := End(s, es); t.toClient == [] ==> t.client.active == t.server.active
  {
    DeliveredRun(s, es);
  }

  // A network that also repeats packets and delivers acknowledgements nobody sent. The client commits on each,
  // without looking at its own pending flag or at whether the packet decrypts.

  datatype Fault = Proper(event: Event) | RepeatToClient(i: nat) | ForgeAck(under: Key, id: u32)

  predicate CanHappen(s: State, f: Fault)
  {
    match f
    case Proper(e) => Enabled(s, e)
    case RepeatToClient(i) => i < |s.toClient|
    case ForgeAck(_, _) => true
  }

  function Happens(s: State, f: Fault): State
    requires CanHappen(s, f)
  {
    match f
    case Proper(e) => Apply(s, e)
    case RepeatToClient(i) => s.(toClient := s.toClient + [s.toClient[i]])
    case ForgeAck(k, id) => s.(toClient := s.toClient + [Packet(k, Ack(id))])
  }

  predicate FaultyRuns(s: State, fs: seq<Fault>)
    decreases |fs|
  {
    fs == [] || (CanHappen(s, fs[0]) && FaultyRuns(Happens(s, fs[0]), fs[1..]))
  }

  function FaultyEnd(s: State, fs: seq<Fault>): State
    requires FaultyRuns(s, fs)
    decreases |fs|
  {
    if fs == [] then s else FaultyEnd(Happens(s, fs[0]), fs[1..])
  }

  /** A key is staged exactly while a request is pending. */
  predicate Slots(c: Sec) { Staged(c) && (!c.pending ==> c.next == NO_KEY) }

  lemma {:induction false} SlotsRun(s: State, fs: seq<Fault>)
    requires Slots(s.client) && FaultyRuns(s, fs)
    ensures Slots(FaultyEnd(s, fs).client)
    decreases |fs|
  {
    if fs != [] { SlotsRun(Happens(s, fs[0]), fs[1..]); }
  }

  /**
   * In every such run, committing on an acknowledgement moves the client on to the next key if and only if its
   * request is pending, which the client does not test; otherwise it is left with the cleared key.
   */
  lemma CommitNeedsPending(s: State, fs: seq<Fault>)
    requires Slots(s.client) && FaultyRuns(s, fs)
    ensures var c := FaultyEnd(s, fs).client;
            var after := Committed(c).active;
            (after == c.next && after.id == (c.active.id + 1) % 0x1_0000_0000 && c.pending) ||
            (after == NO_KEY && !c.pending)
  {
    SlotsRun(s, fs);
  }

  /** The event delivers an acknowledgement to the client. */
  predicate Delivers(s: State, f: Fault) { f == Proper(ClientReceive) && AckNext(s) }

  /** Every acknowledgement that the run delivers finds the server ahead. */
  predicate AllAhead(s: State, fs: seq<Fault>)
    requires FaultyRuns(s, fs)
    decreases |fs|
  {
    fs == [] || ((Delivers(s, fs[0]) ==> Ahead(s)) && AllAhead(Happens(s, fs[0]), fs[1..]))
  }

  /** Every acknowledgement that the run delivers leaves both sides with one key. */
  predicate AllAgree(s: State, fs: seq<Fault>)
    requires FaultyRuns(s, fs)
    decreases |fs|
  {
    fs == [] || ((Delivers(s, fs[0]) ==> !Ahead(Happens(s, fs[0]))) && AllAgree(Happens(s, fs[0]), fs[1..]))
  }

  /** A commit makes the keys equal if and only if the server is ahead. */
  lemma CommitExact(s: State)
    requires Core(s) && Slots(s.client) && AckNext(s)
    ensures Ahead(s) <==> !Ahead(Apply(s, ClientReceive))
  {
  }

  lemma FaultKeeps(s: State, f: Fault)
    requires Core(s) && CanHappen(s, f) && (Delivers(s, f) ==> Ahead(s))
    ensures Core(Happens(s, f))
  {
    if f.Proper? { CoreKeeps(s, f.event); }
  }

  lemma {:induction false} CommitsRun(s: State, fs: seq<Fault>)
    requires Core(s) && Slots(s.client) && FaultyRuns(s, fs)
    ensures AllAgree(s, fs) <==> AllAhead(s, fs)
    ensures AllAhead(s, fs) ==> Core(FaultyEnd(s, fs))
    decreases |fs|
  {
    if fs != [] {
      hide Core;
      if Delivers(s, fs[0]) { CommitExact(s); }
      if Delivers(s, fs[0]) ==> Ahead(s) {
        FaultKeeps(s, fs[0]);
        SlotsRun(s, [fs[0]]);
        CommitsRun(Happens(s, fs[0]), fs[1..]);
      }
    }
  }

  /**
   * Over every run with loss, repetition and forgery: all commits leave both sides with one key if and only if
   * each acknowledgement arrived with the server ahead, and then the next one does so if and only if the server
   * is ahead again.
   */
  lemma CommitAgrees(s: State, fs: seq<Fault>)
    requires Initial(s) && Slots(s.client) && FaultyRuns(s, fs)
    ensures AllAgree(s, fs) <==> AllAhead(s, fs)
    ensures var t := FaultyEnd(s, fs);
            AllAhead(s, fs) && AckNext(t) ==> (!Ahead(Apply(t, ClientReceive)) <==> Ahead(t))
  {
    hide FaultyRuns, FaultyEnd, AllAgree, AllAhead;
    CommitsRun(s, fs);
    SlotsRun(s, fs);
    var t := FaultyEnd(s, fs);
    if AllAhead(s, fs) && AckNext(t) { CommitExact(t); }
  }

  /** One more event at the end of a run. */
  lemma {:induction false} Then(s: State, fs: seq<Fault>, f: Fault) returns (all: seq<Fault>)
    requires FaultyRuns(s, fs) && CanHappen(FaultyEnd(s, fs), f)
    ensures all == fs + [f] && FaultyRuns(s, all) && FaultyEnd(s, all) == Happens(FaultyEnd(s, fs), f)
    ensures AllAhead(s, all) <==> AllAhead(s, fs) && (Delivers(FaultyEnd(s, fs), f) ==> Ahead(FaultyEnd(s, fs)))
    decreases |fs|
  {
    if fs == [] {
      all := [f];
      assert all[1..] == [];
    } else {
      var rest := Then(Happens(s, fs[0]), fs[1..], f);
      all := [fs[0]] + rest;
      assert all[1..] == rest;
    }
  }

  /** One rekey whose acknowledgement was repeated: the client has moved on, and the copy is under way. */
  lemma Repeated(s: State, raw: seq<u8>) returns (fs: seq<Fault>)
    requires Initial(s)
    ensures FaultyRuns(s, fs) && AllAhead(s, fs) && forall f :: f in fs ==> !f.ForgeAck?
    ensures var t := FaultyEnd(s, fs);
            t.toServer == [] && t.client.active == t.server.active == Key(raw, 2) && !t.client.pending &&
            t.client.next == NO_KEY &&
            t.toClient == [Packet(s.server.active, Ack(2))]
  {
    fs := [];
    assert FaultyRuns(s, fs) && FaultyEnd(s, fs) == s && AllAhead(s, fs);
    hide FaultyRuns, FaultyEnd, AllAhead;
    fs := Then(s, fs, Proper(ClientInit(Some(raw))));
    fs := Then(s, fs, Proper(ServerReceive));
    fs := Then(s, fs, RepeatToClient(0));
    fs := Then(s, fs, Proper(ClientReceive));
  }

  /** One acknowledgement delivered twice leaves the client with the cleared key. */
  lemma SecondAck(s: State, raw: seq<u8>) returns (fs: seq<Fault>)
    requires Initial(s)
    ensures FaultyRuns(s, fs) && FaultyEnd(s, fs).client.active == NO_KEY &&
      FaultyEnd(s, fs).server.active == Key(raw, 2)
  {
    hide FaultyRuns, FaultyEnd;
    fs := Repeated(s, raw);
    fs := Then(s, fs, Proper(ClientReceive));
  }

  /** A forged acknowledgement has the same effect on a client that asked for nothing. */
  lemma ForgedAck(s: State, k: Key, id: u32) returns (fs: seq<Fault>)
    requires Initial(s) && Slots(s.client)
    ensures FaultyRuns(s, fs) && FaultyEnd(s, fs).client.active == NO_KEY
  {
    fs := [];
    assert FaultyRuns(s, fs) && FaultyEnd(s, fs) == s;
    hide FaultyRuns, FaultyEnd;
    fs := Then(s, fs, ForgeAck(k, id));
    fs := Then(s, fs, Proper(ClientReceive));
  }

  /**
   * Testing the pending flag would not be enough: a repeated acknowledgement of one rekey that arrives while the
   * next is pending moves the client ahead of the server.
   */
  lemma StaleAckWhilePending(s: State, raw: seq<u8>, raw2: seq<u8>) returns (fs: seq<Fault>)
    requires Initial(s)
    ensures FaultyRuns(s, fs)
    ensures var t := FaultyEnd(s, fs);
            t.client.pending && t.toClient != [] && t.toClient[0].body.Ack? &&
            Committed(t.client).active != t.server.active
  {
    hide FaultyRuns, FaultyEnd;
    fs := Repeated(s, raw);
    fs := Then(s, fs, Proper(ClientInit(Some(raw2))));
  }
}
