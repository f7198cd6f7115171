/**
 * The sharded session table. Sessions are objects in memory; each of the 16 shards has two intrusive hash
 * tables over the same objects, one by virtual address and one by session id. A table is an index: its
 * elements in insertion order, and the key under which each was inserted. Lookups go by that key, and the
 * invariant keeps it equal to the session's field; SessionIndex.StaleKey shows what happens otherwise.
 */
module Sessions {
  import opened Common
  import opened Rekey
  import opened Uthash
  import opened SessionIndex
  import opened Words

  const SHARDS := 16

  function Fold(x: bv32): bv32 { (x ^ (x >> 16)) & 15 }

  /** vpn_get_shard_idx. */
  function ShardOf(x: u32): (i: nat)
    ensures i < SHARDS
  {
    FoldBound(x as bv32);
    Fold(x as bv32) as nat
  }

  lemma FoldBound(x: bv32)
    ensures Fold(x) as nat < SHARDS
  {
    assert Fold(x) < 16;
  }

  /** vf_ss_generate_sid, for any random word. */
  function GenerateSid(vip: u32, random: u32): u32
  {
    Aligned(vip as bv32, random as bv32) as u32
  }

  function Aligned(vip: bv32, random: bv32): bv32
  {
    var high := random & 0xFFFF_0000;
    high | (random & 0x0000_FFF0) | ((Fold(vip) ^ (high >> 16)) & 15)
  }

  lemma AlignedFold(vip: bv32, random: bv32)
    ensures Fold(Aligned(vip, random)) == Fold(vip)
    ensures Aligned(vip, random) & 0xFFFF_FFF0 == random & 0xFFFF_FFF0
  {
  }

  lemma BackAndForth(x: bv32)
    ensures (x as u32) as bv32 == x
  {
  }

  /** A generated id always falls into the shard of its address and keeps all random bits but four. */
  lemma SidAligned(vip: u32, random: u32)
    ensures ShardOf(GenerateSid(vip, random)) == ShardOf(vip)
    ensures GenerateSid(vip, random) as bv32 & 0xFFFF_FFF0 == random as bv32 & 0xFFFF_FFF0
  {
    AlignedFold(vip as bv32, random as bv32);
    BackAndForth(Aligned(vip as bv32, random as bv32));
  }

  /** The choice of a shard for an address or an id. */
  type Home = u32 -> nat

  datatype Addr = Addr(ip: u32, port: nat)

  datatype Session = Session(vip: u32, sid: u32, addr: Addr, lastSeen: int, sec: Sec)

  datatype Shard = Shard(ip: Index, sid: Index)

  type Heap = map<Ptr, Session>

  /** Both tables of shard i hold the same live sessions under their current keys, and all belong there by both. */
  ghost predicate ShardOk(home: Home, heap: Heap, s: Shard, i: nat)
  {
    Distinct(s.ip.order) && Distinct(s.sid.order) && (forall p :: p in s.ip.order <==> p in s.sid.order) &&
    forall p :: p in s.ip.order ==>
      p in heap && home(heap[p].vip) == i && home(heap[p].sid) == i &&
      s.ip.Under(p, heap[p].vip) && s.sid.Under(p, heap[p].sid)
  }

  ghost predicate InShard(home: Home, heap: Heap, shards: seq<Shard>, p: Ptr)
    requires p in heap
  {
    home(heap[p].vip) < |shards| && p in shards[home(heap[p].vip)].ip.order
  }

  predicate Unique(heap: Heap)
  {
    forall p, q :: p in heap && q in heap && heap[p].vip == heap[q].vip ==> p == q
  }

  /** No session is outside its shard's tables, and no two have the same virtual address. */
  ghost predicate Ok(home: Home, heap: Heap, shards: seq<Shard>)
  {
    |shards| == SHARDS && (forall x :: home(x) < SHARDS) && NULL !in heap && Unique(heap) &&
    (forall i :: 0 <= i < SHARDS ==> ShardOk(home, heap, shards[i], i)) &&
    (forall p {:trigger InShard(home, heap, shards, p)} :: p in heap ==> InShard(home, heap, shards, p))
  }

  /** What a shard's validity depends on. */
  lemma ShardFrame(home: Home, heap: Heap, heap2: Heap, s: Shard, i: nat)
    requires ShardOk(home, heap, s, i)
    requires forall p :: p in s.ip.order ==> p in heap2 && heap2[p].vip == heap[p].vip && heap2[p].sid == heap[p].sid
    ensures ShardOk(home, heap2, s, i)
  {
  }

  lemma ShardGrows(home: Home, heap: Heap, s: Shard, i: nat, p: Ptr)
    requires ShardOk(home, heap, s, i) && p !in s.ip.order && p in heap
    requires home(heap[p].vip) == i && home(heap[p].sid) == i
    ensures ShardOk(home, heap, Shard(s.ip.Enter(p, heap[p].vip), s.sid.Enter(p, heap[p].sid)), i)
  {
  }

  /** A session with a fresh address joins both tables of its shard. */
  lemma CreateOk(home: Home, heap: Heap, shards: seq<Shard>, p: Ptr, s: Session)
    requires Ok(home, heap, shards) && p !in heap && p != NULL && home(s.sid) == home(s.vip)
    requires forall q :: q in heap ==> heap[q].vip != s.vip
    ensures var i := home(s.vip);
            Ok(home, heap[p := s], shards[i := Shard(shards[i].ip.Enter(p, s.vip), shards[i].sid.Enter(p, s.sid))])
  {
    var i, heap2 := home(s.vip), heap[p := s];
    var t := shards[i := Shard(shards[i].ip.Enter(p, s.vip), shards[i].sid.Enter(p, s.sid))];
    forall j | 0 <= j < SHARDS ensures ShardOk(home, heap2, t[j], j) {
      assert ShardOk(home, heap, shards[j], j);
      ShardFrame(home, heap, heap2, shards[j], j);
      if j == i { ShardGrows(home, heap2, shards[i], i, p); }
    }
    forall q | q in heap2 ensures InShard(home, heap2, t, q) {
      assert q in heap ==> InShard(home, heap, shards, q);
    }
  }

  /** A session may change in anything but its two keys. */
  lemma ChangeOk(home: Home, heap: Heap, shards: seq<Shard>, p: Ptr, s: Session)
    requires Ok(home, heap, shards) && p in heap && s.vip == heap[p].vip && s.sid == heap[p].sid
    ensures Ok(home, heap[p := s], shards)
  {
    var heap2 := heap[p := s];
    forall j | 0 <= j < SHARDS ensures ShardOk(home, heap2, shards[j], j) {
      assert ShardOk(home, heap, shards[j], j);
      ShardFrame(home, heap, heap2, shards[j], j);
    }
    forall q | q in heap2 ensures InShard(home, heap2, shards, q) {
      assert InShard(home, heap, shards, q);
    }
  }

  lemma ShardRekeyed(home: Home, heap: Heap, s: Shard, i: nat, p: Ptr, t: Session)
    requires ShardOk(home, heap, s, i) && p in s.ip.order && t.vip == heap[p].vip && home(t.sid) == i
    ensures ShardOk(home, heap[p := t], Shard(s.ip, s.sid.Leave(p).Enter(p, t.sid)), i)
  {
    LeaveIn(s.sid, p);
  }

  /** A session with a new id leaves the id table and enters it again under the new id. */
  lemma RekeyOk(home: Home, heap: Heap, shards: seq<Shard>, p: Ptr, s: Session)
    requires Ok(home, heap, shards) && p in heap && s.vip == heap[p].vip && home(s.sid) == home(s.vip)
    ensures var i := home(s.vip);
            Ok(home, heap[p := s], shards[i := Shard(shards[i].ip, shards[i].sid.Leave(p).Enter(p, s.sid))])
  {
    var i, heap2 := home(s.vip), heap[p := s];
    var t := shards[i := Shard(shards[i].ip, shards[i].sid.Leave(p).Enter(p, s.sid))];
    assert ShardOk(home, heap, shards[i], i) && InShard(home, heap, shards, p);
    forall j | 0 <= j < SHARDS ensures ShardOk(home, heap2, t[j], j) {
      assert ShardOk(home, heap, shards[j], j);
      if j == i { ShardRekeyed(home, heap, shards[i], i, p, s); } else { ShardFrame(home, heap, heap2, shards[j], j); }
    }
    forall q | q in heap2 ensures InShard(home, heap2, t, q) {
      assert InShard(home, heap, shards, q);
    }
  }

  /** Without that, the id table would have the session under its old id only, and the invariant would be broken. */
  lemma StaleId(home: Home, heap: Heap, shards: seq<Shard>, p: Ptr, s: Session)
    requires Ok(home, heap, shards) && p in heap && s.vip == heap[p].vip && s.sid != heap[p].sid
    ensures !Ok(home, heap[p := s], shards)
    ensures !shards[home(s.vip)].sid.Under(p, s.sid) && shards[home(s.vip)].sid.Under(p, heap[p].sid)
  {
    var i := home(s.vip);
    assert InShard(home, heap, shards, p) && ShardOk(home, heap, shards[i], i);
    assert !ShardOk(home, heap[p := s], shards[i], i);
  }

  lemma ShardShrinks(home: Home, heap: Heap, s: Shard, i: nat, p: Ptr)
    requires ShardOk(home, heap, s, i)
    ensures ShardOk(home, heap - {p}, Shard(s.ip.Leave(p), s.sid.Leave(p)), i)
  {
    LeaveIn(s.ip, p);
    LeaveIn(s.sid, p);
  }

  /** Deleting a session takes it out of both tables of its shard. */
  lemma DeleteOk(home: Home, heap: Heap, shards: seq<Shard>, p: Ptr)
    requires Ok(home, heap, shards) && p in heap
    ensures var i := home(heap[p].vip);
            Ok(home, heap - {p}, shards[i := Shard(shards[i].ip.Leave(p), shards[i].sid.Leave(p))])
  {
    var i, heap2 := home(heap[p].vip), heap - {p};
    var t := shards[i := Shard(shards[i].ip.Leave(p), shards[i].sid.Leave(p))];
    assert ShardOk(home, heap, shards[i], i) && InShard(home, heap, shards, p);
    LeaveIn(shards[i].ip, p);
    forall j | 0 <= j < SHARDS ensures ShardOk(home, heap2, t[j], j) {
      assert ShardOk(home, heap, shards[j], j);
      if j == i { ShardShrinks(home, heap, shards[i], i, p); } else { ShardFrame(home, heap, heap2, shards[j], j); }
    }
    forall q | q in heap2 ensures InShard(home, heap2, t, q) {
      assert InShard(home, heap, shards, q);
    }
  }

  /** The session with that virtual address, found by searching all of them. */
  ghost function Holder(heap: Heap, vip: u32): (p: Ptr)
    requires NULL !in heap
    ensures p != NULL ==> p in heap && heap[p].vip == vip
    ensures p == NULL ==> forall q :: q in heap ==> heap[q].vip != vip
  {
    if q :| q in heap && heap[q].vip == vip then q else NULL
  }

  /** Any session with that id, or none if no session in any shard has it. */
  ghost predicate HasSid(heap: Heap, sid: u32, p: Ptr)
  {
    if p == NULL then forall q :: q in heap ==> heap[q].sid != sid else p in heap && heap[p].sid == sid
  }

  /** What one shard's address table holds under a key is what a search of all sessions finds. */
  lemma OneShardIp(home: Home, heap: Heap, shards: seq<Shard>, vip: u32)
    requires Ok(home, heap, shards)
    ensures forall p :: p in heap && heap[p].vip == vip <==> shards[home(vip)].ip.Under(p, vip)
  {
    var i := home(vip);
    assert ShardOk(home, heap, shards[i], i);
    forall p | p in heap && heap[p].vip == vip ensures p in shards[i].ip.order {
      assert InShard(home, heap, shards, p);
    }
  }

  /** The same for the id table. */
  lemma OneShardSid(home: Home, heap: Heap, shards: seq<Shard>, sid: u32)
    requires Ok(home, heap, shards)
    ensures forall p :: p in heap && heap[p].sid == sid <==> shards[home(sid)].sid.Under(p, sid)
  {
    var i := home(sid);
    assert ShardOk(home, heap, shards[i], i);
    forall p | p in heap && heap[p].sid == sid ensures shards[i].sid.Under(p, sid) {
      assert InShard(home, heap, shards, p);
      var j := home(heap[p].vip);
      assert ShardOk(home, heap, shards[j], j);
    }
  }

  /** The context that vf_rekey_init leaves. */
  function FreshSec(sid: u32, random: Option<seq<u8>>): Sec
  {
    Sec(if random.Some? then Key(random.value, 1) else NO_KEY, NO_KEY, NO_KEY, false, sid)
  }

  class Manager {
    const home: Home
    var heap: Heap
    var shards: seq<Shard>

    ghost predicate Valid()
      reads this
    {
      Ok(home, heap, shards)
    }

    /** vf_ss_init. */
    constructor ()
      ensures Valid() && heap == map[] && home == ShardOf
    {
      home, heap, shards := ShardOf, map[], seq(SHARDS, i => Shard(EMPTY, EMPTY));
    }

    /** vf_ss_lookup_by_ip. */
    method LookupByIp(vip: u32) returns (out: Ptr)
      requires Valid()
      ensures out == Holder(heap, vip)
    {
      OneShardIp(home, heap, shards, vip);
      out := Lookup(shards[home(vip)].ip, vip);
    }

    /** vf_ss_lookup_by_sid. */
    method LookupBySid(sid: u32) returns (out: Ptr)
      requires Valid()
      ensures HasSid(heap, sid, out)
    {
      OneShardSid(home, heap, shards, sid);
      out := Lookup(shards[home(sid)].sid, sid);
    }

    /**
     * vf_ss_update: creates the session, or gives the existing one its new id and moves it in the id table.
     * Memory for a new session is any address that is not in use.
     */
    method Update(vip: u32, sid: u32, addr: Addr, now: int, mem: Ptr, random: Option<seq<u8>>)
      requires Valid() && home(sid) == home(vip) && mem != NULL && mem !in heap
      modifies this
      ensures Valid()
      ensures var p := Holder(old(heap), vip);
              heap == if p == NULL then old(heap)[mem := Session(vip, sid, addr, now, FreshSec(sid, random))]
                      else old(heap)[p := old(heap)[p].(sid := sid, addr := addr, lastSeen := now)]
    {
      var i := home(vip);
      var p := LookupByIp(vip);
      if p == NULL {
        p := mem;
        var s := Session(vip, sid, addr, now, FreshSec(sid, random));
        CreateOk(home, heap, shards, p, s);
        heap := heap[p := s];
        shards := shards[i := Shard(shards[i].ip.Enter(p, s.vip), shards[i].sid.Enter(p, s.sid))];
      } else {
        if heap[p].sid != sid {
          ChangeSid(p, i, sid);
        }
        var s := heap[p].(addr := addr, lastSeen := now);
        ChangeOk(home, heap, shards, p, s);
        heap := heap[p := s];
      }
    }

    /** Out of the id table under the old id, and into it again under the new one. */
    method ChangeSid(p: Ptr, i: nat, sid: u32)
      requires Valid() && p in heap && i == home(heap[p].vip) == home(sid)
      modifies this
      ensures Valid() && heap == old(heap)[p := old(heap)[p].(sid := sid)]
    {
      ghost var was := shards;
      RekeyOk(home, heap, shards, p, heap[p].(sid := sid));
      hide Ok;
      shards := shards[i := Shard(shards[i].ip, shards[i].sid.Leave(p))];
      heap := heap[p := heap[p].(sid := sid)];
      shards := shards[i := Shard(shards[i].ip, shards[i].sid.Enter(p, heap[p].sid))];
      assert shards == was[i := Shard(was[i].ip, was[i].sid.Leave(p).Enter(p, sid))];
    }

    /** vf_ss_update_by_sid: refreshes a session and follows its client to a new address. */
    method UpdateBySid(sid: u32, addr: Addr, now: int) returns (p: Ptr)
      requires Valid()
      modifies this
      ensures Valid() && HasSid(old(heap), sid, p)
      ensures heap == if p == NULL then old(heap) else old(heap)[p := old(heap)[p].(addr := addr, lastSeen := now)]
    {
      p := LookupBySid(sid);
      if p != NULL {
        var s := heap[p].(lastSeen := now);
        if s.addr.ip != addr.ip || s.addr.port != addr.port {
          s := s.(addr := addr);
        }
        ChangeOk(home, heap, shards, p, s);
        heap := heap[p := s];
      }
    }

    /** vf_ss_delete. */
    method Delete(vip: u32)
      requires Valid()
      modifies this
      ensures Valid() && heap == old(heap) - {Holder(old(heap), vip)}
    {
      var p := LookupByIp(vip);
      if p != NULL {
        Drop(p, home(vip));
      }
    }

    /** Takes one session out of both tables and frees it. */
    method Drop(p: Ptr, i: nat)
      requires Valid() && p in heap && i == home(heap[p].vip)
      modifies this
      ensures Valid() && heap == old(heap) - {p}
      ensures shards == old(shards)[i := Shard(old(shards)[i].ip.Leave(p), old(shards)[i].sid.Leave(p))]
    {
      DeleteOk(home, heap, shards, p);
      shards := shards[i := Shard(shards[i].ip.Leave(p), shards[i].sid.Leave(p))];
      heap := heap - {p};
    }

    /**
     * One shard of vf_ss_clean_timeout. The iteration visits every element of the shard once, whatever
     * the body deletes. gone lists the sessions removed so far, out of those in was.
     */
    method SweepShard(i: nat, timeout: int, now: int, freed: seq<u32>, ghost was: Heap, ghost gone: seq<Ptr>)
      returns (freed2: seq<u32>, ghost gone2: seq<Ptr>)
      requires Valid() && i < SHARDS && Swept(home, was, heap, now, timeout, freed, gone, i)
      modifies this
      ensures Valid() && Swept(home, was, heap, now, timeout, freed2, gone2, i + 1)
    {
      freed2, gone2 := freed, gone;
      var todo := shards[i].ip.order;
      SweepBegins(home, was, heap, shards, now, timeout, freed, gone, i);
      for k := 0 to |todo|
        invariant Valid() && Sweeping(home, was, heap, now, timeout, freed2, gone2, i, todo, k)
      {
        SweepNext(home, was, heap, now, timeout, freed2, gone2, i, todo, k);
        var p := todo[k];
        var s := heap[p];
        if now - s.lastSeen > timeout {
          freed2, gone2 := freed2 + [s.vip], gone2 + [p];
          Drop(p, i);
        }
      }
      assert todo[..|todo|] == todo;
    }

    /** vf_ss_clean_timeout: exactly the timed out sessions go, and each gives back its address once. */
    method CleanTimeout(timeout: int, now: int) returns (freed: seq<u32>, ghost gone: seq<Ptr>)
      requires Valid()
      modifies this
      ensures Valid() && Gone(old(heap), heap, freed, gone)
      ensures forall p :: p in old(heap) ==> (p in gone <==> TimedOut(old(heap)[p], now, timeout))
    {
      freed, gone := [], [];
      ghost var was := heap;
      for i := 0 to SHARDS
        invariant Valid() && Swept(home, was, heap, now, timeout, freed, gone, i)
      {
        freed, gone := SweepShard(i, timeout, now, freed, was, gone);
      }
    }

    /**
     * vf_ss_get_expired: the first idle sessions in table order, at most maxCount of them but never fewer
     * than one if there is any.
     */
    method GetExpired(maxCount: int, probe: int, dead: int, now: int) returns (list: seq<Node>)
      requires Valid()
      ensures var all := Expired(heap, Flat(shards, SHARDS), probe, dead, now);
              list == all[..Min(|all|, Max(1, maxCount))]
    {
      FlatLive(home, heap, shards, SHARDS);
      list := ScanAll(heap, shards, maxCount, probe, dead, now);
    }

    /** vf_ss_get_total_count: the number of sessions in memory, modulo 2^32. */
    method TotalCount() returns (total: nat)
      requires Valid()
      ensures total == |heap| % 0x1_0000_0000
    {
      total := 0;
      for i := 0 to SHARDS
        invariant total == |Flat(shards, i)| % 0x1_0000_0000
      {
        total := (total + |shards[i].ip.order|) % 0x1_0000_0000;
      }
      FlatLive(home, heap, shards, SHARDS);
      FlatAll(home, heap, shards);
    }
  }

  function Max(a: int, b: int): int { if a < b then b else a }

  datatype Node = Node(sid: u32, vip: u32, addr: Addr, dead: bool)

  /** The elements of the address tables of the first n shards. */
  function Flat(shards: seq<Shard>, n: nat): seq<Ptr>
    requires n <= |shards|
  {
    if n == 0 then [] else Flat(shards, n - 1) + shards[n - 1].ip.order
  }

  function Report(s: Session, probe: int, dead: int, now: int): seq<Node>
  {
    var idle := now - s.lastSeen;
    if idle >= probe then [Node(s.sid, s.vip, s.addr, idle >= dead)] else []
  }

  /** The idle sessions among s, with the mark of the dead ones. */
  function Expired(heap: Heap, s: seq<Ptr>, probe: int, dead: int, now: int): seq<Node>
  {
    if s == [] then []
    else
      var p := s[|s| - 1];
      Expired(heap, s[..|s| - 1], probe, dead, now) + if p in heap then Report(heap[p], probe, dead, now) else []
  }

  predicate TimedOut(s: Session, now: int, timeout: int) { now - s.lastSeen > timeout }

  /** The sessions in gone were in was, have been freed, and left their addresses in freed. */
  ghost predicate Gone(was: Heap, heap: Heap, freed: seq<u32>, gone: seq<Ptr>)
  {
    heap == was - SetOf(gone) && Distinct(gone) && |freed| == |gone| &&
    forall j :: 0 <= j < |gone| ==> gone[j] in was && freed[j] == was[gone[j]].vip
  }

  /** The sweep is through with the shards below i. */
  ghost predicate Swept(home: Home, was: Heap, heap: Heap, now: int, timeout: int, freed: seq<u32>, gone: seq<Ptr>,
                        i: nat)
  {
    Gone(was, heap, freed, gone) &&
    forall p :: p in was ==> (p in gone <==> TimedOut(was[p], now, timeout) && home(was[p].vip) < i)
  }

  /** The sweep is through with the first k elements of shard i. */
  ghost predicate Sweeping(home: Home, was: Heap, heap: Heap, now: int, timeout: int, freed: seq<u32>, gone: seq<Ptr>,
                           i: nat, todo: seq<Ptr>, k: nat)
  {
    k <= |todo| && Distinct(todo) && Gone(was, heap, freed, gone) &&
    (forall j :: 0 <= j < |todo| ==> todo[j] in was && home(was[todo[j]].vip) == i) &&
    forall p :: p in was ==>
      (p in gone <==> TimedOut(was[p], now, timeout) && (home(was[p].vip) < i || p in todo[..k]))
  }

  lemma SweepBegins(home: Home, was: Heap, heap: Heap, shards: seq<Shard>, now: int, timeout: int, freed: seq<u32>,
                    gone: seq<Ptr>, i: nat)
    requires Ok(home, heap, shards) && i < SHARDS && Swept(home, was, heap, now, timeout, freed, gone, i)
    ensures Sweeping(home, was, heap, now, timeout, freed, gone, i, shards[i].ip.order, 0)
    ensures forall p :: p in was && home(was[p].vip) == i ==> p in shards[i].ip.order
  {
    var todo := shards[i].ip.order;
    assert ShardOk(home, heap, shards[i], i);
    forall j | 0 <= j < |todo| ensures todo[j] in was && home(was[todo[j]].vip) == i {
      assert todo[j] in heap;
    }
    forall p | p in was && home(was[p].vip) == i ensures p in todo {
      assert p in heap && InShard(home, heap, shards, p);
    }
  }

  lemma SweepNext(home: Home, was: Heap, heap: Heap, now: int, timeout: int, freed: seq<u32>, gone: seq<Ptr>,
                  i: nat, todo: seq<Ptr>, k: nat)
    requires k < |todo| && Sweeping(home, was, heap, now, timeout, freed, gone, i, todo, k)
    ensures var p := todo[k];
            p in heap && home(heap[p].vip) == i &&
            if TimedOut(heap[p], now, timeout)
            then Sweeping(home, was, heap - {p}, now, timeout, freed + [heap[p].vip], gone + [p], i, todo, k + 1)
            else Sweeping(home, was, heap, now, timeout, freed, gone, i, todo, k + 1)
  {
    var p := todo[k];
    assert todo[..k + 1] == todo[..k] + [p];
    assert p !in todo[..k];
    SetOfSnoc(gone, p);
  }

  lemma ExpiredSnoc(heap: Heap, s: seq<Ptr>, p: Ptr, probe: int, dead: int, now: int)
    requires p in heap
    ensures Expired(heap, s + [p], probe, dead, now)
      == Expired(heap, s, probe, dead, now) + Report(heap[p], probe, dead, now)
  {
    assert (s + [p])[..|s|] == s;
  }

  lemma {:induction false} ExpiredPrefix(heap: Heap, a: seq<Ptr>, s: seq<Ptr>, probe: int, dead: int, now: int)
    requires a <= s
    ensures Expired(heap, a, probe, dead, now) <= Expired(heap, s, probe, dead, now)
    decreases |s|
  {
    if |a| < |s| {
      ExpiredPrefix(heap, a, s[..|s| - 1], probe, dead, now);
    } else {
      assert a == s;
    }
  }

  lemma {:induction false} FlatPrefix(shards: seq<Shard>, i: nat, n: nat)
    requires i <= n <= |shards|
    ensures Flat(shards, i) <= Flat(shards, n)
    decreases n
  {
    if i < n { FlatPrefix(shards, i, n - 1); }
  }

  /** The inner loop of vf_ss_get_expired; it stops after k elements when the list is full. */
  method ScanTable(heap: Heap, ghost before: seq<Ptr>, table: seq<Ptr>, list: seq<Node>, maxCount: int,
                   probe: int, dead: int, now: int)
    returns (list2: seq<Node>, full: bool, ghost k: nat)
    requires forall i :: 0 <= i < |table| ==> table[i] in heap
    requires list == Expired(heap, before, probe, dead, now) && |list| < Max(1, maxCount)
    ensures k <= |table| && list2 == Expired(heap, before + table[..k], probe, dead, now)
    ensures if full then |list2| == Max(1, maxCount) else k == |table| && |list2| < Max(1, maxCount)
    ensures k == |table| ==> before + table[..k] == before + table
  {
    hide Expired;
    list2, k := list, 0;
    assert before + table[..0] == before;
    for j := 0 to |table|
      invariant k == j && list2 == Expired(heap, before + table[..j], probe, dead, now) && |list2| < Max(1, maxCount)
    {
      assert before + table[..j + 1] == before + table[..j] + [table[j]];
      var s := heap[table[j]];
      var idle := now - s.lastSeen;
      ExpiredSnoc(heap, before + table[..j], table[j], probe, dead, now);
      k := j + 1;
      if idle >= probe {
        list2 := list2 + [Node(s.sid, s.vip, s.addr, idle >= dead)];
        if |list2| >= maxCount {
          return list2, true, k;
        }
      }
    }
    full := false;
  }

  /** One more table of the flat list. */
  lemma FlatNext(heap: Heap, shards: seq<Shard>, i: nat, probe: int, dead: int, now: int)
    requires i <= |shards| && forall p :: p in Flat(shards, |shards|) ==> p in heap
    ensures Expired(heap, Flat(shards, 0), probe, dead, now) == []
    ensures i < |shards| ==> Flat(shards, i + 1) == Flat(shards, i) + shards[i].ip.order
    ensures i < |shards| ==> Flat(shards, i) + shards[i].ip.order <= Flat(shards, |shards|)
    ensures i < |shards| ==> forall j :: 0 <= j < |shards[i].ip.order| ==> shards[i].ip.order[j] in heap
  {
    if i < |shards| {
      FlatPrefix(shards, i + 1, |shards|);
      var n := |Flat(shards, i)|;
      forall j | 0 <= j < |shards[i].ip.order| ensures shards[i].ip.order[j] in heap {
        assert Flat(shards, |shards|)[n + j] == shards[i].ip.order[j];
      }
    }
  }

  /** The loops of vf_ss_get_expired. */
  method ScanAll(heap: Heap, shards: seq<Shard>, maxCount: int, probe: int, dead: int, now: int)
    returns (list: seq<Node>)
    requires forall p :: p in Flat(shards, |shards|) ==> p in heap
    ensures var all := Expired(heap, Flat(shards, |shards|), probe, dead, now);
            list == all[..Min(|all|, Max(1, maxCount))]
  {
    list := [];
    hide Flat, Expired;
    FlatNext(heap, shards, 0, probe, dead, now);
    for i := 0 to |shards|
      invariant list == Expired(heap, Flat(shards, i), probe, dead, now) && |list| < Max(1, maxCount)
    {
      FlatNext(heap, shards, i, probe, dead, now);
      ghost var before := Flat(shards, i);
      var full;
      ghost var k;
      list, full, k := ScanTable(heap, before, shards[i].ip.order, list, maxCount, probe, dead, now);
      if full {
        ExpiredPrefix(heap, before + shards[i].ip.order[..k], Flat(shards, |shards|), probe, dead, now);
        return;
      }
    }
  }

  /** The shards are disjoint and hold only live sessions of their own. */
  lemma {:induction false} FlatLive(home: Home, heap: Heap, shards: seq<Shard>, n: nat)
    requires Ok(home, heap, shards) && n <= SHARDS
    ensures Distinct(Flat(shards, n))
    ensures forall p :: p in Flat(shards, n) ==> p in heap && home(heap[p].vip) < n
  {
    if n > 0 {
      FlatLive(home, heap, shards, n - 1);
      assert ShardOk(home, heap, shards[n - 1], n - 1);
      DistinctAppend(Flat(shards, n - 1), shards[n - 1].ip.order);
    }
  }

  lemma DistinctAppend(a: seq<Ptr>, b: seq<Ptr>)
    requires Distinct(a) && Distinct(b) && forall p :: p in a ==> p !in b
    ensures Distinct(a + b)
  {
    var s := a + b;
    forall i, j | 0 <= i < j < |s| ensures s[i] != s[j] {
      if i < |a| <= j { assert s[i] in a && s[j] in b; }
    }
  }

  lemma {:induction false} FlatHas(shards: seq<Shard>, i: nat, n: nat, p: Ptr)
    requires i < n <= |shards| && p in shards[i].ip.order
    ensures p in Flat(shards, n)
  {
    if i < n - 1 { FlatHas(shards, i, n - 1, p); }
  }

  lemma FlatAll(home: Home, heap: Heap, shards: seq<Shard>)
    requires Ok(home, heap, shards)
    ensures |Flat(shards, SHARDS)| == |heap|
  {
    var all := Flat(shards, SHARDS);
    FlatLive(home, heap, shards, SHARDS);
    forall p | p in heap ensures p in all {
      assert InShard(home, heap, shards, p);
      FlatHas(shards, home(heap[p].vip), SHARDS, p);
    }
    assert SetOf(all) == heap.Keys;
    DistinctSize(all);
  }

  lemma {:induction false} DistinctSize(s: seq<Ptr>)
    requires Distinct(s)
    ensures |SetOf(s)| == |s|
  {
    if s == [] {
      assert SetOf(s) == {};
    } else {
      var n := |s| - 1;
      DistinctSize(s[..n]);
      SetOfTake(s, n);
      assert s[..n + 1] == s && s[n] !in s[..n];
    }
  }
}
