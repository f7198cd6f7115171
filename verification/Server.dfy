/**
 * The server's use of addresses: authentication takes one from the pool and creates a session for it, and
 * periodic maintenance deletes dead sessions and gives their addresses back.
 */
module Server {
  import opened Common
  import opened Words
  import opened Uthash
  import opened Sessions
  import opened IpPool
  import R = Rekey
  import Q = Protocol
  import C = PacketCrypto
  import A = Aead

  /** The position of an address in a pool, going round at 2^32. */
  function Offset(start: u32, ip: u32): (pos: nat)
    ensures AddressAt(start, pos) == ip
  {
    if ip >= start then ip - start else ip + 0x1_0000_0000 - start
  }

  lemma OffsetOfAddress(start: u32, pos: nat)
    requires pos < 0x1_0000_0000
    ensures Offset(start, AddressAt(start, pos)) == pos
  {
  }

  /** Some session has the address at pos. */
  ghost predicate InUse(start: u32, heap: Heap, pos: nat)
  {
    exists p :: p in heap && Offset(start, heap[p].vip) == pos
  }

  /** What a position can be taken for. */
  ghost predicate Held(start: u32, heap: Heap, failed: set<nat>, stranded: set<nat>, pos: nat)
  {
    Reserved(AddressAt(start, pos)) || InUse(start, heap, pos) || pos in failed || pos in stranded
  }

  /** The reasons exclude each other. */
  ghost predicate Apart(start: u32, heap: Heap, failed: set<nat>, stranded: set<nat>, pos: nat)
  {
    (Reserved(AddressAt(start, pos)) ==> !InUse(start, heap, pos) && pos !in failed && pos !in stranded) &&
    (InUse(start, heap, pos) ==> pos !in failed && pos !in stranded) && (pos in failed ==> pos !in stranded)
  }

  /**
   * The marked positions are the disjoint union of the reserved ones, the live sessions' ones, those of
   * failed logins and those of deleted sessions that the pool did not take back.
   */
  ghost predicate Balanced(start: u32, marked: seq<bool>, heap: Heap, failed: set<nat>, stranded: set<nat>)
  {
    0 < |marked| < 0x1_0000_0000 &&
    (forall p :: p in heap ==> Offset(start, heap[p].vip) < |marked|) &&
    (forall pos :: 0 <= pos < |marked| ==>
       marked[pos] == Held(start, heap, failed, stranded, pos) && Apart(start, heap, failed, stranded, pos))
  }

  /** A login that fails keeps its address. */
  lemma FailBalanced(start: u32, marked: seq<bool>, heap: Heap, failed: set<nat>, stranded: set<nat>, pos: nat)
    requires Balanced(start, marked, heap, failed, stranded) && pos < |marked| && !marked[pos]
    ensures Balanced(start, marked[pos := true], heap, failed + {pos}, stranded)
  {
  }

  lemma LiveCreate(start: u32, heap: Heap, p: Ptr, s: Session, pos: nat)
    requires p !in heap
    ensures InUse(start, heap[p := s], pos) == (InUse(start, heap, pos) || Offset(start, s.vip) == pos)
  {
    var heap2 := heap[p := s];
    if InUse(start, heap, pos) {
      var q :| q in heap && Offset(start, heap[q].vip) == pos;
      assert q in heap2 && heap2[q] == heap[q];
    }
    if Offset(start, s.vip) == pos {
      assert p in heap2 && heap2[p] == s;
    }
  }

  lemma LiveDelete(start: u32, heap: Heap, p: Ptr, pos: nat)
    requires p in heap && Unique(heap)
    ensures InUse(start, heap - {p}, pos) == (InUse(start, heap, pos) && Offset(start, heap[p].vip) != pos)
  {
    var heap2 := heap - {p};
    if InUse(start, heap, pos) && Offset(start, heap[p].vip) != pos {
      var q :| q in heap && Offset(start, heap[q].vip) == pos;
      assert q in heap2 && heap2[q] == heap[q];
    }
    if InUse(start, heap2, pos) {
      var q :| q in heap2 && Offset(start, heap2[q].vip) == pos;
      assert q in heap && heap[q] == heap2[q];
    }
  }

  /** A new session takes a position that was held for a login. */
  lemma PromoteBalanced(start: u32, marked: seq<bool>, heap: Heap, failed: set<nat>, stranded: set<nat>, p: Ptr,
                        s: Session)
    requires Balanced(start, marked, heap, failed, stranded) && p !in heap
    requires Offset(start, s.vip) < |marked| && Offset(start, s.vip) in failed
    ensures Balanced(start, marked, heap[p := s], failed - {Offset(start, s.vip)}, stranded)
  {
    forall pos { LiveCreate(start, heap, p, s, pos); }
  }

  /** A deleted session's position is given back. */
  lemma DeleteBalanced(start: u32, marked: seq<bool>, heap: Heap, failed: set<nat>, stranded: set<nat>, p: Ptr)
    requires Balanced(start, marked, heap, failed, stranded) && p in heap && Unique(heap)
    ensures var pos := Offset(start, heap[p].vip); Balanced(start, marked[pos := false], heap - {p}, failed, stranded)
  {
    assert InUse(start, heap, Offset(start, heap[p].vip));
    forall pos { LiveDelete(start, heap, p, pos); }
  }

  /** A deleted session's position is lost if the pool does not take it back. */
  lemma StrandBalanced(start: u32, marked: seq<bool>, heap: Heap, failed: set<nat>, stranded: set<nat>, p: Ptr)
    requires Balanced(start, marked, heap, failed, stranded) && p in heap && Unique(heap)
    ensures Balanced(start, marked, heap - {p}, failed, stranded + {Offset(start, heap[p].vip)})
  {
    assert InUse(start, heap, Offset(start, heap[p].vip));
    forall pos { LiveDelete(start, heap, p, pos); }
  }

  /** What deleting a session and offering its address to the pool comes to. */
  lemma ReclaimBalanced(start: u32, size: u32, marked: seq<bool>, heap: Heap, failed: set<nat>, stranded: set<nat>,
                        p: Ptr)
    requires Balanced(start, marked, heap, failed, stranded) && p in heap && Unique(heap) && size == |marked|
    ensures var vip := heap[p].vip;
            var pos := Offset(start, vip);
            if vip != 0 && start <= vip < (start + size) % 0x1_0000_0000
            then start + size < 0x1_0000_0000 && vip - start == pos < size &&
                 Balanced(start, marked[pos := false], heap - {p}, failed, stranded)
            else start + size >= 0x1_0000_0000 && Balanced(start, marked, heap - {p}, failed, stranded + {pos})
  {
    var pos := Offset(start, heap[p].vip);
    assert InUse(start, heap, pos) && Apart(start, heap, failed, stranded, pos);
    ReleaseRange(start, size, pos);
    DeleteBalanced(start, marked, heap, failed, stranded, p);
    StrandBalanced(start, marked, heap, failed, stranded, p);
  }

  /** The address is not reserved and no session has it. */
  ghost predicate Unused(heap: Heap, vip: u32)
  {
    !Reserved(vip) && forall p :: p in heap ==> heap[p].vip != vip
  }

  /** Nothing free is reserved or live. */
  lemma FreeIsUnused(start: u32, marked: seq<bool>, heap: Heap, failed: set<nat>, stranded: set<nat>, pos: nat)
    requires Balanced(start, marked, heap, failed, stranded) && pos < |marked| && !marked[pos]
    ensures Unused(heap, AddressAt(start, pos)) && AddressAt(start, pos) != 0
  {
    forall p | p in heap ensures heap[p].vip != AddressAt(start, pos) {
      OffsetOfAddress(start, pos);
      assert !InUse(start, heap, pos);
    }
  }

  const BATCH := 64
  const PROBE := 15
  const DEAD := 30

  /** How an authentication attempt ends. */
  datatype Outcome = Rejected | Exhausted | LoginFailed(vip: u32)
    | Accepted(vip: u32, sid: u32, session: Ptr, length: nat)

  const KEEPALIVE_SECONDS: u32 := 300

  /** vf_payload_auth_resp_t: status, address, token, key id, keep-alive interval and key. */
  function Response(vip: u32, token: seq<u8>, key: R.Key): (r: seq<u8>)
    requires |token| == 16 && |key.raw| == 32
    ensures |r| == 64
  {
    Q.Net32(0) + Q.Net32(vip) + token + Q.Net32(key.id) + Q.Net32(KEEPALIVE_SECONDS) + key.raw
  }

  /** The acknowledgement of a login in a packet buffer. Packing it never fails, whatever padding is drawn. */
  method Acknowledge(buf: array<u8>, next: Q.Generator, seed: u32, vip: u32, token: seq<u8>, key: R.Key, sid: u32)
    returns (tlen: nat, ghost noise: seq<u8>)
    requires buf.Length >= Q.BUF_SIZE && |token| == 16 && |key.raw| == 32
    modifies buf
    ensures noise == Q.Padding(next, seed, 64) && tlen == Q.HLEN + 64 + |noise|
    ensures Q.Framed(Q.Masked(buf[..]), Q.AUTH_ACK, sid, 0, Response(vip, token, key) + noise)
  {
    hide Response, Q.Framed, Q.Masked, Q.Padding, A.TagOf, A.Encipher;
    ghost var was := buf[..];
    var payload := Response(vip, token, key);
    C.CopyInto(buf, Q.HLEN, payload);
    A.PutRead(was, Q.HLEN, payload);
    var len;
    ghost var body;
    len, noise, body := Q.Pack((input, j) => 0, None, next, seed, A.Zeros(24), buf, 64, Q.BUF_SIZE, Q.AUTH_ACK, sid);
    tlen := len;
  }

  /** Every session has a whole key. */
  ghost predicate Keyed(heap: Heap) { forall p :: p in heap ==> |heap[p].sec.active.raw| == 32 }

  class VpnServer {
    const pool: AddressPool
    const sessions: Manager
    ghost var failed: set<nat>   // positions that failed logins hold
    ghost var stranded: set<nat> // positions of deleted sessions that the pool did not take back

    ghost predicate Valid()
      reads this, pool, pool.bitmap, sessions
    {
      pool.Valid() && pool.bitmap != null && sessions.Valid() && sessions.home == ShardOf &&
      Balanced(pool.start, pool.View().marked, sessions.heap, failed, stranded) &&
      (pool.start + pool.size < 0x1_0000_0000 ==> stranded == {}) && Keyed(sessions.heap)
    }

    constructor (cidr: u32, n: u32)
      requires 0 < n <= LARGEST && cidr != INADDR_NONE
      ensures Valid() && fresh(pool) && fresh(pool.bitmap) && fresh(sessions)
      ensures pool.start == cidr && pool.size == n && sessions.heap == map[] && failed == {} && stranded == {}
    {
      var p := new AddressPool();
      var rc := p.Init(cidr, n);
      pool := p;
      sessions := new Manager();
      failed, stranded := {}, {};
    }

    /** Takes a position, and holds it for a login that may fail. */
    method Take() returns (vip: u32)
      requires Valid()
      modifies this, pool, pool.bitmap
      ensures Valid() && stranded == old(stranded) && pool.start == old(pool.start) && pool.bitmap == old(pool.bitmap)
      ensures vip == 0 <==> Search(old(pool.View()), 0).None?
      ensures vip == 0 ==> failed == old(failed)
      ensures vip != 0 ==>
        failed == old(failed) + {Offset(pool.start, vip)} && Offset(pool.start, vip) !in old(failed) &&
        Offset(pool.start, vip) < |pool.View().marked| && Unused(sessions.heap, vip)
    {
      ghost var before := pool.View();
      vip := pool.Allocate();
      ghost var pick := Search(before, 0);
      if pick.Some? {
        OffsetOfAddress(pool.start, pick.value);
        FreeIsUnused(pool.start, before.marked, sessions.heap, failed, stranded, pick.value);
        FailBalanced(pool.start, before.marked, sessions.heap, failed, stranded, pick.value);
        failed := failed + {pick.value};
      }
    }

    /** Creates the session for an address that was taken, and finds it again. */
    method Admit(vip: u32, random: u32, key: Option<seq<u8>>, src: Addr, now: int, mem: Ptr)
      returns (sid: u32, s: Ptr)
      requires Valid() && mem != NULL && mem !in sessions.heap && Unused(sessions.heap, vip)
      requires key.Some? ==> |key.value| == 32
      requires Offset(pool.start, vip) < |pool.View().marked| && Offset(pool.start, vip) in failed
      modifies this, sessions
      ensures Valid() && failed == old(failed) - {Offset(pool.start, vip)} && stranded == old(stranded)
      ensures sessions.heap == old(sessions.heap)[mem := Session(vip, sid, src, now, FreshSec(sid, key))]
      ensures s != NULL && HasSid(sessions.heap, sid, s)
      ensures (forall p :: p in old(sessions.heap) ==> old(sessions.heap)[p].sid != sid) ==> s == mem
    {
      hide Balanced, ShardOk, InShard, ShardOf, GenerateSid, Search;
      sid := GenerateSid(vip, random);
      SidAligned(vip, random);
      PromoteBalanced(pool.start, pool.View().marked, sessions.heap, failed, stranded, mem,
        Session(vip, sid, src, now, FreshSec(sid, key)));
      sessions.Update(vip, sid, src, now, mem, key);
      s := sessions.LookupBySid(sid);
      assert sessions.heap[mem].sid == sid;
      failed := failed - {Offset(pool.start, vip)};
    }

    /**
     * vfast_handle_auth. genuine says whether cookie and time stamp are right, login whether the credentials
     * are. The address is taken before the login, and a failed login does not give it back. Neither the lookup
     * of the session just created nor packing the answer can fail, so the rollback behind them, which would
     * free the address of a live session, is never reached. The answer carries the key of the session found.
     */
    method HandleAuth(genuine: bool, login: bool, random: u32, key: Option<seq<u8>>, src: Addr, now: int, mem: Ptr,
                      token: seq<u8>, buf: array<u8>, next: Q.Generator, seed: u32)
      returns (out: Outcome, ghost noise: seq<u8>)
      requires Valid() && mem != NULL && mem !in sessions.heap && buf != pool.bitmap
      requires buf.Length >= Q.BUF_SIZE && |token| == 16 && (key.Some? ==> |key.value| == 32)
      modifies this, pool, pool.bitmap, sessions, buf
      ensures Valid() && stranded == old(stranded)
      ensures out.Rejected? <==> !genuine
      ensures out.Exhausted? <==> genuine && Search(old(pool.View()), 0).None?
      ensures out.Exhausted? && pool.size <= 0x8000_0000 ==> AllMarked(old(pool.View()))
      ensures out.LoginFailed? ==> !login
      ensures out.Accepted? ==> login
      ensures out.LoginFailed? || out.Accepted? ==> Unused(old(sessions.heap), out.vip)
      ensures failed == if out.LoginFailed? then old(failed) + {Offset(pool.start, out.vip)} else old(failed)
      ensures out.Accepted? ==>
        out.session != NULL && HasSid(sessions.heap, out.sid, out.session) &&
        noise == Q.Padding(next, seed, 64) && out.length == Q.HLEN + 64 + |noise| &&
        Q.Framed(Q.Masked(buf[..]), Q.AUTH_ACK, out.sid, 0,
                 Response(out.vip, token, sessions.heap[out.session].sec.active) + noise)
      ensures out.Accepted? && (forall p :: p in old(sessions.heap) ==> old(sessions.heap)[p].sid != out.sid) ==>
        out.session == mem
      ensures sessions.heap ==
              if out.Accepted?
              then old(sessions.heap)[mem := Session(out.vip, out.sid, src, now, FreshSec(out.sid, key))]
              else old(sessions.heap)
    {
      hide Response, Q.Framed, Q.Masked, Q.Padding, Balanced, ShardOk, InShard, Search, Pick;
      noise := [];
      if !genuine { return Rejected, []; }
      if pool.size <= 0x8000_0000 { SearchFails(pool.View()); }
      var vip := Take();
      if vip == 0 { return Exhausted, []; }
      if !login { return LoginFailed(vip), []; }
      var sid, s := Admit(vip, random, key, src, now, mem);
      var tlen;
      tlen, noise := Acknowledge(buf, next, seed, vip, token, sessions.heap[s].sec.active, sid);
      return Accepted(vip, sid, s, tlen), noise;
    }

    /** Activity of a client: any packet with a known session id. */
    method Touch(sid: u32, src: Addr, now: int) returns (p: Ptr)
      requires Valid()
      modifies sessions
      ensures Valid() && HasSid(old(sessions.heap), sid, p)
      ensures sessions.heap == if p == NULL then old(sessions.heap)
                               else old(sessions.heap)[p := old(sessions.heap)[p].(addr := src, lastSeen := now)]
    {
      ghost var was := sessions.heap;
      p := sessions.UpdateBySid(sid, src, now);
      if p != NULL {
        ChangeBalanced(pool.start, pool.View().marked, was, failed, stranded, p, sessions.heap[p]);
      }
    }

    /** Deletes the session with that address and offers the address to the pool. */
    method Reclaim(vip: u32)
      requires Valid() && Holder(sessions.heap, vip) != NULL
      modifies this, pool.bitmap, sessions
      ensures Valid() && sessions.heap == old(sessions.heap) - {Holder(old(sessions.heap), vip)} &&
        failed == old(failed)
      ensures stranded == if pool.start + pool.size < 0x1_0000_0000 then {}
        else old(stranded) + {Offset(pool.start, vip)}
    {
      hide Balanced, Search, ShardOk, InShard;
      ReclaimBalanced(pool.start, pool.size, pool.View().marked, sessions.heap, failed, stranded,
        Holder(sessions.heap, vip));
      sessions.Delete(vip);
      pool.Release(vip);
      if pool.start + pool.size >= 0x1_0000_0000 {
        stranded := stranded + {Offset(pool.start, vip)};
      }
    }

    /**
     * vfast_server_maintenance: of the first 64 idle sessions, those idle for 30 seconds are deleted and
     * their addresses given back; the others are only probed.
     */
    method Maintain(now: int) returns (list: seq<Node>)
      requires Valid()
      modifies this, pool.bitmap, sessions
      ensures Valid() && failed == old(failed)
      ensures var all := Expired(old(sessions.heap), Flat(old(sessions.shards), SHARDS), PROBE, DEAD, now);
              list == all[..Min(|all|, BATCH)]
      ensures Remaining(old(sessions.heap), sessions.heap, list, |list|)
    {
      hide Balanced, ShardOk, InShard, Listing, Expired, Flat, Search;
      ghost var was, all := sessions.heap, Flat(sessions.shards, SHARDS);
      list := sessions.GetExpired(BATCH, PROBE, DEAD, now);
      FlatLive(sessions.home, was, sessions.shards, SHARDS);
      ExpiredNodes(was, all, PROBE, DEAD, now);
      ListingPrefix(was, all, Expired(was, all, PROBE, DEAD, now), |list|);
      ReclaimAll(was, all, list);
    }

    /** The loop of vfast_server_maintenance, without the probes. */
    method ReclaimAll(ghost was: Heap, ghost all: seq<Ptr>, list: seq<Node>)
      requires Valid() && sessions.heap == was && Listing(was, all, list)
      modifies this, pool.bitmap, sessions
      ensures Valid() && failed == old(failed) && Remaining(was, sessions.heap, list, |list|)
    {
      hide Balanced, ShardOk, InShard;
      for i := 0 to |list|
        invariant Valid() && failed == old(failed) && unchanged(pool) && Remaining(was, sessions.heap, list, i)
      {
        if list[i].dead {
          StillThere(was, sessions.heap, all, list, i);
          Reclaim(list[i].vip);
        }
      }
    }
  }

  lemma ChangeBalanced(start: u32, marked: seq<bool>, heap: Heap, failed: set<nat>, stranded: set<nat>, p: Ptr,
                       s: Session)
    requires Balanced(start, marked, heap, failed, stranded) && p in heap && s.vip == heap[p].vip
    ensures Balanced(start, marked, heap[p := s], failed, stranded)
  {
    var heap2 := heap[p := s];
    forall pos | 0 <= pos < |marked|
      ensures marked[pos] == Held(start, heap2, failed, stranded, pos) && Apart(start, heap2, failed, stranded, pos)
    {
      hide InUse;
      LiveChange(start, heap, p, s, pos);
      assert marked[pos] == Held(start, heap, failed, stranded, pos) && Apart(start, heap, failed, stranded, pos);
    }
  }

  lemma LiveChange(start: u32, heap: Heap, p: Ptr, s: Session, pos: nat)
    requires p in heap && s.vip == heap[p].vip
    ensures InUse(start, heap[p := s], pos) == InUse(start, heap, pos)
  {
    var heap2 := heap[p := s];
    if InUse(start, heap, pos) {
      var q :| q in heap && Offset(start, heap[q].vip) == pos;
      assert q in heap2 && heap2[q].vip == heap[q].vip;
    }
    if InUse(start, heap2, pos) {
      var q :| q in heap2 && Offset(start, heap2[q].vip) == pos;
      assert q in heap && heap[q].vip == heap2[q].vip;
    }
  }

  /** One of the sessions in s has that address. */
  ghost predicate HasVip(heap: Heap, s: seq<Ptr>, vip: u32)
  {
    exists p :: p in s && p in heap && heap[p].vip == vip
  }

  /** Every entry of the list is about a session of its own among those in s. */
  ghost predicate Listing(heap: Heap, s: seq<Ptr>, list: seq<Node>)
  {
    (forall j :: 0 <= j < |list| ==> HasVip(heap, s, list[j].vip)) &&
    forall j, k :: 0 <= j < k < |list| ==> list[j].vip != list[k].vip
  }

  lemma ListingPrefix(heap: Heap, s: seq<Ptr>, list: seq<Node>, n: nat)
    requires Listing(heap, s, list) && n <= |list|
    ensures Listing(heap, s, list[..n])
  {
  }

  lemma {:induction false} ExpiredNodes(heap: Heap, s: seq<Ptr>, probe: int, dead: int, now: int)
    requires Distinct(s) && Unique(heap)
    ensures Listing(heap, s, Expired(heap, s, probe, dead, now))
  {
    if s != [] {
      var n := |s| - 1;
      ExpiredNodes(heap, s[..n], probe, dead, now);
      var list, p := Expired(heap, s[..n], probe, dead, now), s[n];
      assert s == s[..n] + [p] && p !in s[..n];
      forall j | 0 <= j < |list| ensures HasVip(heap, s, list[j].vip) && (p in heap ==> list[j].vip != heap[p].vip) {
        assert HasVip(heap, s[..n], list[j].vip);
        var q :| q in s[..n] && q in heap && heap[q].vip == list[j].vip;
        assert q in s;
      }
      assert p in heap ==> HasVip(heap, s, heap[p].vip);
    }
  }

  /** The sessions that are left when the dead among the first n entries are gone. */
  ghost predicate Remaining(was: Heap, heap: Heap, list: seq<Node>, n: nat)
    requires n <= |list|
  {
    (forall p :: p in heap ==> p in was && heap[p] == was[p]) &&
    forall p :: p in was ==> (p in heap <==> !DeadIn(list, n, was[p].vip))
  }

  ghost predicate DeadIn(list: seq<Node>, n: nat, vip: u32)
    requires n <= |list|
  {
    exists j :: 0 <= j < n && list[j].dead && list[j].vip == vip
  }

  lemma StillThere(was: Heap, heap: Heap, s: seq<Ptr>, list: seq<Node>, i: nat)
    requires Listing(was, s, list) && i < |list| && Remaining(was, heap, list, i) && NULL !in heap
    ensures Holder(heap, list[i].vip) != NULL
  {
    assert HasVip(was, s, list[i].vip);
    var p :| p in s && p in was && was[p].vip == list[i].vip;
    assert !DeadIn(list, i, was[p].vip);
  }
}
