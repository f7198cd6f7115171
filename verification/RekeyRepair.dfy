/**
 * Tests with which the client could tell whether to commit on an acknowledgement, over a network that repeats
 * packets: the id of the key the acknowledgement is under, or the id it echoes. A client that makes the second
 * test stays in step with the server, and behaves as before where nothing is repeated.
 */
module RekeyRepair {
  import opened Common
  import opened Words
  import opened Rekey
  import opened RekeyProtocol

  predicate NoForgery(fs: seq<Fault>) { forall f :: f in fs ==> !f.ForgeAck? }

  /** An acknowledgement is under the key before the one it echoes, which the server has accepted. */
  predicate Past(server: Sec, p: Packet)
  {
    p.body.Ack? ==> 1 <= p.under.id && p.body.id == p.under.id + 1 <= server.active.id
  }

  predicate AllPast(s: State) { forall i :: 0 <= i < |s.toClient| ==> Past(s.server, s.toClient[i]) }

  lemma ServerPast(s: State)
    requires Core(s) && AllPast(s) && s.toServer != []
    ensures AllPast(Apply(s, ServerReceive))
  {
    assert Readable(s, s.toServer[0]) && RequestOk(s, s.toServer[0]);
  }

  lemma PastKeeps(s: State, f: Fault)
    requires Core(s) && AllPast(s) && CanHappen(s, f) && !f.ForgeAck?
    ensures AllPast(Happens(s, f))
  {
    hide Core;
    var t := Happens(s, f);
    if f == Proper(ServerReceive) {
      ServerPast(s);
    } else if f.Proper? && f.event.LoseToClient? {
      forall k | 0 <= k < |t.toClient| ensures t.toClient[k] in s.toClient { WithoutAt(s.toClient, f.event.i, k); }
    }
  }

  /** The acknowledgement is under the client's active key. */
  predicate Current(c: Sec, p: Packet) { p.body.Ack? && p.under.id == c.active.id }

  /** The acknowledgement echoes the id that the client has asked for. */
  predicate Confirms(c: Sec, p: Packet) { p.body.Ack? && c.pending && p.body.id == c.next.id }

  /** Either test is enough. */
  lemma TestEnough(s: State)
    requires Core(s) && AllPast(s) && AckNext(s) &&
      (Current(s.client, s.toClient[0]) || Confirms(s.client, s.toClient[0]))
    ensures Ahead(s) && !Ahead(Apply(s, ClientReceive))
  {
    assert Past(s.server, s.toClient[0]);
  }

  lemma {:induction false} PastRun(s: State, fs: seq<Fault>)
    requires Core(s) && AllPast(s) && FaultyRuns(s, fs) && NoForgery(fs) && AllAhead(s, fs)
    ensures Core(FaultyEnd(s, fs)) && AllPast(FaultyEnd(s, fs))
    decreases |fs|
  {
    if fs != [] {
      hide Core, AllPast;
      FaultKeeps(s, fs[0]);
      PastKeeps(s, fs[0]);
      PastRun(Happens(s, fs[0]), fs[1..]);
    }
  }

  /**
   * In every run without forgery whose commits were right so far, an acknowledgement that passes either test
   * leaves both sides with one key.
   */
  lemma TestedCommitAgrees(s: State, fs: seq<Fault>)
    requires Initial(s) && FaultyRuns(s, fs) && NoForgery(fs) && AllAhead(s, fs)
    ensures var t := FaultyEnd(s, fs);
            AckNext(t) && (Current(t.client, t.toClient[0]) || Confirms(t.client, t.toClient[0])) ==>
              Ahead(t) && !Ahead(Apply(t, ClientReceive))
  {
    PastRun(s, fs);
    var t := FaultyEnd(s, fs);
    hide Core, AllPast, Current, Confirms;
    if AckNext(t) && (Current(t.client, t.toClient[0]) || Confirms(t.client, t.toClient[0])) { TestEnough(t); }
  }

  /** The tests are not necessary: an old acknowledgement can arrive just when the server is ahead again. */
  lemma OldAckInTime(s: State, raw: seq<u8>, raw2: seq<u8>) returns (fs: seq<Fault>)
    requires Initial(s)
    ensures FaultyRuns(s, fs) && NoForgery(fs) && AllAhead(s, fs)
    ensures var t := FaultyEnd(s, fs);
            AckNext(t) && !Current(t.client, t.toClient[0]) && !Confirms(t.client, t.toClient[0]) &&
            !Ahead(Apply(t, ClientReceive))
  {
    hide FaultyRuns, FaultyEnd, AllAhead;
    fs := Repeated(s, raw);
    fs := Then(s, fs, Proper(ClientInit(Some(raw2))));
    fs := Then(s, fs, Proper(ServerReceive));
  }

  // The client that commits only on an acknowledgement that confirms its request.

  /** It drops every other acknowledgement. */
  function Guarded(s: State, f: Fault): State
    requires CanHappen(s, f)
  {
    if Delivers(s, f) && !Confirms(s.client, s.toClient[0]) then s.(toClient := s.toClient[1..]) else Happens(s, f)
  }

  predicate GuardedRuns(s: State, fs: seq<Fault>)
    decreases |fs|
  {
    fs == [] || (CanHappen(s, fs[0]) && GuardedRuns(Guarded(s, fs[0]), fs[1..]))
  }

  function GuardedEnd(s: State, fs: seq<Fault>): State
    requires GuardedRuns(s, fs)
    decreases |fs|
  {
    if fs == [] then s else GuardedEnd(Guarded(s, fs[0]), fs[1..])
  }

  /** Every commit of the run leaves both sides with one key. */
  predicate GuardedAgree(s: State, fs: seq<Fault>)
    requires GuardedRuns(s, fs)
    decreases |fs|
  {
    fs == [] ||
    ((Delivers(s, fs[0]) && Confirms(s.client, s.toClient[0]) ==> !Ahead(Guarded(s, fs[0]))) &&
     GuardedAgree(Guarded(s, fs[0]), fs[1..]))
  }

  lemma GuardedKeeps(s: State, f: Fault)
    requires Core(s) && AllPast(s) && CanHappen(s, f) && !f.ForgeAck?
    ensures Core(Guarded(s, f)) && AllPast(Guarded(s, f))
    ensures Delivers(s, f) && Confirms(s.client, s.toClient[0]) ==> !Ahead(Guarded(s, f))
  {
    PastKeeps(s, f);
    if Delivers(s, f) {
      if Confirms(s.client, s.toClient[0]) { TestEnough(s); FaultKeeps(s, f); }
    } else {
      FaultKeeps(s, f);
    }
  }

  lemma {:induction false} GuardedRunKeeps(s: State, fs: seq<Fault>)
    requires Core(s) && AllPast(s) && GuardedRuns(s, fs) && NoForgery(fs)
    ensures Core(GuardedEnd(s, fs)) && GuardedAgree(s, fs)
    decreases |fs|
  {
    if fs != [] {
      hide Core, AllPast, Guarded, Confirms;
      GuardedKeeps(s, fs[0]);
      GuardedRunKeeps(Guarded(s, fs[0]), fs[1..]);
    }
  }

  /**
   * Over every run with loss and repetition, such a client stays in step with the server, each of its commits
   * leaves both sides with one key, and the server finds the right key for every packet under way to it.
   */
  lemma RepairSafe(s: State, fs: seq<Fault>)
    requires Initial(s) && GuardedRuns(s, fs) && NoForgery(fs)
    ensures Paired(GuardedEnd(s, fs)) && GuardedAgree(s, fs)
    ensures var t := GuardedEnd(s, fs);
            forall p :: p in t.toServer ==> DecryptKey(t.server, p.WireKid()) == Some(p.under.raw)
  {
    GuardedRunKeeps(s, fs);
    CoreReads(GuardedEnd(s, fs));
  }

  predicate Echoing(s: State)
  {
    forall i :: 0 <= i < |s.toClient| && s.toClient[i].body.Ack? ==> s.toClient[i].body.id == s.server.active.id
  }

  lemma EchoingKeeps(s: State, e: Event)
    requires Inv(s) && Echoing(s) && Enabled(s, e)
    ensures Echoing(Apply(s, e))
  {
    var t := Apply(s, e);
    match e
    case ServerReceive =>
      ServerReceiveKeeps(s);
      assert t.server != s.server ==> NoAck(s.toClient);
    case LoseToClient(i) =>
      forall k | 0 <= k < |t.toClient| ensures t.toClient[k] in s.toClient { WithoutAt(s.toClient, i, k); }
    case _ =>
  }

  function Lift(es: seq<Event>): seq<Fault> { seq(|es|, i requires 0 <= i < |es| => Proper(es[i])) }

  /** Where packets are only lost, it does exactly what the source's client does. */
  lemma {:induction false} RepairRun(s: State, es: seq<Event>)
    requires Inv(s) && Echoing(s) && Runs(s, es)
    ensures GuardedRuns(s, Lift(es)) && GuardedEnd(s, Lift(es)) == End(s, es)
    decreases |es|
  {
    if es != [] {
      if Delivers(s, Proper(es[0])) { assert Ahead(s) && Confirms(s.client, s.toClient[0]); }
      assert Guarded(s, Proper(es[0])) == Apply(s, es[0]);
      hide Inv, Echoing, Guarded, Apply;
      StepKeeps(s, es[0]);
      EchoingKeeps(s, es[0]);
      RepairRun(Apply(s, es[0]), es[1..]);
      assert Lift(es)[0] == Proper(es[0]) && Lift(es)[1..] == Lift(es[1..]);
    }
  }

  lemma RepairTransparent(s: State, es: seq<Event>)
    requires Initial(s) && Runs(s, es)
    ensures GuardedRuns(s, Lift(es)) && GuardedEnd(s, Lift(es)) == End(s, es)
  {
    RepairRun(s, es);
  }
}
