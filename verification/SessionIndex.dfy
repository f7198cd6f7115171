/**
 * A table of sessions by a 32-bit key, as the session code sees it, and its realisation by a hash table whose
 * handles lie inside the sessions.
 */
module SessionIndex {
  import opened Words
  import opened Uthash

  /** The elements in insertion order, and the key under which each one was inserted. */
  datatype Index = Index(order: seq<Ptr>, keys: map<Ptr, u32>) {
    /** p is in the table under the key. */
    predicate Under(p: Ptr, key: u32) { p in order && p in keys && keys[p] == key }

    function Enter(p: Ptr, key: u32): Index { Index(order + [p], keys[p := key]) }

    function Leave(p: Ptr): Index { Index(Survivors(order, {p}), keys) }
  }

  const EMPTY := Index([], map[])

  lemma {:induction false} SurvivorsIn(s: seq<Ptr>, dead: set<Ptr>)
    requires Distinct(s)
    ensures forall p :: p in Survivors(s, dead) <==> p in s && p !in dead
    ensures Distinct(Survivors(s, dead))
  {
    if s != [] {
      var rest := s[1..];
      SurvivorsIn(rest, dead);
      assert s == [s[0]] + rest;
      forall i | 0 <= i < |rest| ensures rest[i] != s[0] { assert s[i + 1] == rest[i]; }
      assert s[0] !in rest;
      assert forall i :: 0 <= i < |Survivors(rest, dead)| ==> Survivors(rest, dead)[i] in Survivors(rest, dead);
    }
  }

  lemma LeaveIn(x: Index, p: Ptr)
    requires Distinct(x.order)
    ensures Distinct(x.Leave(p).order) && forall q :: q in x.Leave(p).order <==> q in x.order && q != p
  {
    SurvivorsIn(x.order, {p});
  }

  /** Some element under the key, or NULL if there is none. */
  method Lookup(x: Index, key: u32) returns (out: Ptr)
    ensures out != NULL ==> x.Under(out, key)
    ensures out == NULL ==> forall p :: p in x.order && p != NULL ==> !x.Under(p, key)
  {
    if p :| p in x.order && p != NULL && p in x.keys && x.keys[p] == key {
      out := p;
    } else {
      out := NULL;
    }
  }

  /** The hash table holds the elements of the index in its order, with the keys in their handles. */
  ghost predicate Represents(hash: Hash, t: Table, order: seq<Ptr>, chains: seq<seq<Ptr>>, x: Index)
  {
    Valid(hash, t, order, chains) && x.order == order &&
    forall i :: 0 <= i < |order| ==> order[i] in x.keys && t.mem[order[i]].key == Store32(x.keys[order[i]])
  }

  /** HASH_FIND by a 32-bit key does what Lookup does. */
  method TableFind(hash: Hash, t: Table, ghost order: seq<Ptr>, ghost chains: seq<seq<Ptr>>, ghost x: Index, key: u32)
    returns (out: Ptr)
    requires Represents(hash, t, order, chains, x)
    ensures out != NULL ==> x.Under(out, key)
    ensures out == NULL ==> forall p :: p in x.order ==> !x.Under(p, key)
  {
    out := Find(hash, t, order, chains, Store32(key));
    hide Valid;
    forall a: u32, b: u32 | Store32(a) == Store32(b) ensures a == b { assert Load32(Store32(a)) == a; }
  }

  /** A handle outside the table may be written freely. */
  lemma WriteOutside(hash: Hash, t: Table, order: seq<Ptr>, chains: seq<seq<Ptr>>, p: Ptr, h: Handle)
    requires Valid(hash, t, order, chains) && p !in order
    ensures Valid(hash, t.(mem := t.mem[p := h]), order, chains)
  {
    var m := t.mem[p := h];
    forall i | 0 <= i < |order| ensures ListedAt(m, order, i) { assert ListedAt(t.mem, order, i); }
    if order != [] {
      forall q | q in SetOf(order) ensures InChain(m, chains, q) { assert InChain(t.mem, chains, q); }
      forall b | 0 <= b < |chains| ensures BucketOk(m, t.buckets[b], chains[b]) {
        assert BucketOk(t.mem, t.buckets[b], chains[b]);
        forall i | 0 <= i < |chains[b]| ensures ChainedAt(m, chains[b], i) { assert ChainedAt(t.mem, chains[b], i); }
      }
    }
  }

  /** HASH_ADD of a session: its key is in its memory, and the table refers to it there. */
  method TableEnter(hash: Hash, t: Table, ghost order: seq<Ptr>, ghost chains: seq<seq<Ptr>>, ghost x: Index, p: Ptr,
                    key: u32)
    returns (t2: Table, ghost rc: seq<seq<Ptr>>)
    requires Represents(hash, t, order, chains, x) && p != NULL && p !in order
    ensures Represents(hash, t2, order + [p], rc, x.Enter(p, key))
  {
    var h := Handle(NULL, NULL, NULL, NULL, Store32(key), 0);
    WriteOutside(hash, t, order, chains, p, h);
    var m := t.mem[p := h];
    t2, rc := Add(hash, t.(mem := m), order, chains, p);
    ghost var all := order + [p];
    EnterKeys(t.mem, m, t2.mem, order, x, p, key);
  }

  lemma EnterKeys(m: Mem, m2: Mem, m3: Mem, order: seq<Ptr>, x: Index, p: Ptr, key: u32)
    requires Live(m, order) && p !in order && p in m2 && m2[p].key == Store32(key)
    requires forall i :: 0 <= i < |order| ==> order[i] in m2 && m2[order[i]].key == m[order[i]].key
    requires forall i :: 0 <= i < |order| ==> order[i] in x.keys && m[order[i]].key == Store32(x.keys[order[i]])
    requires Kept(m2, m3, SetOf(order) + {p})
    ensures var all, y := order + [p], x.Enter(p, key);
            forall i :: 0 <= i < |all| ==> all[i] in y.keys && all[i] in m3 && m3[all[i]].key == Store32(y.keys[all[i]])
  {
  }

  /** HASH_DELETE of a session. */
  method TableLeave(ghost hash: Hash, t: Table, ghost order: seq<Ptr>, ghost chains: seq<seq<Ptr>>, ghost x: Index,
                    p: Ptr)
    returns (t2: Table, ghost rc: seq<seq<Ptr>>)
    requires Represents(hash, t, order, chains, x) && p in order
    ensures Represents(hash, t2, x.Leave(p).order, rc, x.Leave(p))
  {
    SurvivorsIn(order, {p});
    t2, rc := Delete(hash, t, order, chains, p);
    ghost var rest := Survivors(order, {p});
    forall i | 0 <= i < |rest| ensures rest[i] in x.keys && t2.mem[rest[i]].key == Store32(x.keys[rest[i]]) {
      assert rest[i] in order;
    }
  }

  /**
   * A session whose key is changed while it is in the table: searching for the old key does not find it, and
   * searching for the new one does only if the two keys have the same hash value.
   */
  lemma StaleKey(hash: Hash, t: Table, order: seq<Ptr>, chains: seq<seq<Ptr>>, x: Index, p: Ptr, key: u32)
    requires Represents(hash, t, order, chains, x) && p in order && p in x.keys && key != x.keys[p]
    ensures var m := t.mem[p := t.mem[p].(key := Store32(key))];
            TableOk(t.(mem := m), order, chains) && !Matches(hash, m, p, Store32(x.keys[p])) &&
            (Matches(hash, m, p, Store32(key)) <==> hash(Store32(key)) == hash(Store32(x.keys[p])))
  {
    hide Valid, TableOk;
    assert Load32(Store32(key)) == key && Load32(Store32(x.keys[p])) == x.keys[p];
    KeyOverwritten(hash, t, order, chains, p, Store32(key));
  }
}
