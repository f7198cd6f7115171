/**
 * The intrusive hash table: a doubly linked list in insertion order through all elements, and one doubly
 * linked chain per bucket. Memory is explicit: a handle lives at an address, and address 0 is NULL. The
 * table itself is allocated with the first element and freed with the last.
 */
module Uthash {
  import opened Common
  import opened Words
  import opened Bits
  import opened Bitwise
  import opened NatLemmas

  /** HASH_TO_BKT. */
  function Slot(hashv: nat, buckets: nat): (b: nat)
    requires buckets > 0
    ensures b < buckets
  {
    And(hashv, buckets - 1)
  }

  type Ptr = nat

  const NULL: Ptr := 0

  datatype Handle = Handle(prev: Ptr, next: Ptr, hhPrev: Ptr, hhNext: Ptr, key: seq<u8>, hashv: nat)

  type Mem = map<Ptr, Handle>

  function At(s: seq<Ptr>, i: int): Ptr { if 0 <= i < |s| then s[i] else NULL }

  ghost function Just(s: seq<Ptr>, i: int): set<Ptr> { if 0 <= i < |s| then {s[i]} else {} }

  predicate Distinct(s: seq<Ptr>) { forall i, j :: 0 <= i < j < |s| ==> s[i] != s[j] }

  /** The addresses of s are handles. */
  predicate Live(m: Mem, s: seq<Ptr>) { forall i :: 0 <= i < |s| ==> s[i] in m && s[i] != NULL }

  predicate ChainedAt(m: Mem, s: seq<Ptr>, i: nat)
    requires i < |s| && s[i] in m
  {
    m[s[i]].hhPrev == At(s, i - 1) && m[s[i]].hhNext == At(s, i + 1)
  }

  /** s is a doubly linked list through hhNext and hhPrev. */
  predicate Chained(m: Mem, s: seq<Ptr>)
  {
    Distinct(s) && Live(m, s) && forall i :: 0 <= i < |s| ==> ChainedAt(m, s, i)
  }

  datatype Bucket = Bucket(head: Ptr, count: nat, mult: nat)

  predicate BucketOk(m: Mem, b: Bucket, chain: seq<Ptr>)
  {
    b.head == At(chain, 0) && b.count == |chain| && Chained(m, chain)
  }

  /** m2 differs from m at most in the chain links of the handles in touched. */
  ghost predicate Relinked(m: Mem, m2: Mem, touched: set<Ptr>)
  {
    m2.Keys == m.Keys &&
    forall p :: p in m ==>
      m2[p] == (if p in touched then m[p].(hhPrev := m2[p].hhPrev, hhNext := m2[p].hhNext) else m[p])
  }

  lemma ChainFrame(m: Mem, m2: Mem, touched: set<Ptr>, s: seq<Ptr>)
    requires Chained(m, s) && Relinked(m, m2, touched)
    requires forall i :: 0 <= i < |s| ==> s[i] !in touched
    ensures Chained(m2, s)
  {
    forall i | 0 <= i < |s| ensures ChainedAt(m2, s, i) { assert ChainedAt(m, s, i); }
  }

  /** HASH_ADD_TO_BKT up to the expansion test, and the relinking of HASH_EXPAND_BUCKETS. */
  method PushFront(m: Mem, bkt: Bucket, ghost chain: seq<Ptr>, h: Ptr) returns (m2: Mem, r: Bucket)
    requires BucketOk(m, bkt, chain) && h in m && h != NULL && h !in chain
    ensures Relinked(m, m2, {h} + Just(chain, 0)) && BucketOk(m2, r, [h] + chain) && r.mult == bkt.mult
  {
    m2 := m[h := m[h].(hhNext := bkt.head, hhPrev := NULL)];
    if bkt.head != NULL {
      m2 := m2[bkt.head := m2[bkt.head].(hhPrev := h)];
    }
    r := bkt.(head := h, count := bkt.count + 1);
    ghost var longer := [h] + chain;
    forall i | 0 <= i < |longer| ensures ChainedAt(m2, longer, i) {
      assert i > 0 ==> ChainedAt(m, chain, i - 1);
    }
  }

  /** HASH_DEL_IN_BKT. */
  method Unlink(m: Mem, bkt: Bucket, ghost chain: seq<Ptr>, ghost k: nat, h: Ptr) returns (m2: Mem, r: Bucket)
    requires BucketOk(m, bkt, chain) && k < |chain| && chain[k] == h
    ensures Relinked(m, m2, Just(chain, k - 1) + Just(chain, k + 1)) && BucketOk(m2, r, Without(chain, k)) &&
      r.mult == bkt.mult
  {
    assert ChainedAt(m, chain, k);
    r := bkt.(count := bkt.count - 1);
    if r.head == h {
      r := r.(head := m[h].hhNext);
    }
    m2 := m;
    if m2[h].hhPrev != NULL {
      m2 := m2[m2[h].hhPrev := m2[m2[h].hhPrev].(hhNext := m2[h].hhNext)];
    }
    if m2[h].hhNext != NULL {
      m2 := m2[m2[h].hhNext := m2[m2[h].hhNext].(hhPrev := m2[h].hhPrev)];
    }
    ghost var rest := Without(chain, k);
    forall i | 0 <= i < |rest| ensures ChainedAt(m2, rest, i) {
      assert ChainedAt(m, chain, if i < k then i else i + 1);
    }
  }

  /** The bucket that the handle at p belongs to. */
  function Home(m: Mem, p: Ptr, buckets: nat): (b: nat)
    requires p in m && buckets > 0
    ensures b < buckets
  {
    Slot(m[p].hashv, buckets)
  }

  ghost predicate InChain(m: Mem, chains: seq<seq<Ptr>>, p: Ptr)
    requires p in m && |chains| > 0
  {
    p in chains[Home(m, p, |chains|)]
  }

  /** Every element is in the chain of its bucket, and nothing else is. */
  ghost predicate Placed(m: Mem, chains: seq<seq<Ptr>>, all: set<Ptr>)
  {
    |chains| > 0 && all <= m.Keys &&
    (forall b, i {:trigger chains[b][i]} :: 0 <= b < |chains| && 0 <= i < |chains[b]| ==>
       chains[b][i] in all && Home(m, chains[b][i], |chains|) == b) &&
    (forall p {:trigger InChain(m, chains, p)} :: p in all ==> InChain(m, chains, p))
  }

  ghost predicate BucketsOk(m: Mem, buckets: seq<Bucket>, chains: seq<seq<Ptr>>, all: set<Ptr>)
  {
    |buckets| == |chains| && Placed(m, chains, all) &&
    forall b :: 0 <= b < |chains| ==> BucketOk(m, buckets[b], chains[b])
  }

  lemma PlacedRelinked(m: Mem, m2: Mem, touched: set<Ptr>, chains: seq<seq<Ptr>>, all: set<Ptr>)
    requires Placed(m, chains, all) && Relinked(m, m2, touched)
    ensures Placed(m2, chains, all)
  {
    forall p | p in all ensures InChain(m2, chains, p) { assert InChain(m, chains, p); }
  }

  lemma PlacedInsert(m: Mem, chains: seq<seq<Ptr>>, all: set<Ptr>, h: Ptr)
    requires Placed(m, chains, all) && h in m
    ensures var b := Home(m, h, |chains|); Placed(m, chains[b := [h] + chains[b]], all + {h})
  {
    var b := Home(m, h, |chains|);
    var longer := chains[b := [h] + chains[b]];
    forall p | p in all + {h} ensures InChain(m, longer, p) {
      assert p in all ==> InChain(m, chains, p);
    }
  }

  lemma OthersRelinked(m: Mem, m2: Mem, touched: set<Ptr>, buckets: seq<Bucket>, chains: seq<seq<Ptr>>, all: set<Ptr>,
                       b: nat)
    requires BucketsOk(m, buckets, chains, all) && b < |chains| && Relinked(m, m2, touched)
    requires forall p :: p in touched && p in all ==> Home(m, p, |chains|) == b
    ensures forall c :: 0 <= c < |chains| && c != b ==> BucketOk(m2, buckets[c], chains[c])
  {
    forall c | 0 <= c < |chains| && c != b ensures BucketOk(m2, buckets[c], chains[c]) {
      assert BucketOk(m, buckets[c], chains[c]);
      ChainFrame(m, m2, touched, chains[c]);
    }
  }

  /** Puts h into its bucket. */
  method Insert(m: Mem, buckets: seq<Bucket>, ghost chains: seq<seq<Ptr>>, ghost all: set<Ptr>, h: Ptr)
    returns (m2: Mem, b: nat, r: seq<Bucket>, ghost rc: seq<seq<Ptr>>)
    requires BucketsOk(m, buckets, chains, all) && h in m && h != NULL && h !in all
    ensures b == Home(m, h, |buckets|) && |r| == |buckets| && r[b].mult == buckets[b].mult
    ensures rc == chains[b := [h] + chains[b]] && BucketsOk(m2, r, rc, all + {h})
    ensures Relinked(m, m2, all + {h})
  {
    b := Home(m, h, |buckets|);
    ghost var chain := chains[b];
    ghost var touched := {h} + Just(chain, 0);
    assert BucketOk(m, buckets[b], chain);
    var bkt;
    m2, bkt := PushFront(m, buckets[b], chain, h);
    r, rc := buckets[b := bkt], chains[b := [h] + chain];
    OthersRelinked(m, m2, touched, buckets, chains, all, b);
    PlacedInsert(m, chains, all, h);
    PlacedRelinked(m, m2, touched, rc, all + {h});
  }

  lemma PlacedRemove(m: Mem, chains: seq<seq<Ptr>>, all: set<Ptr>, b: nat, k: nat)
    requires Placed(m, chains, all) && b < |chains| && k < |chains[b]| && Distinct(chains[b])
    ensures Placed(m, chains[b := Without(chains[b], k)], all - {chains[b][k]})
  {
    var h := chains[b][k];
    var rest := Without(chains[b], k);
    var shorter := chains[b := rest];
    forall p | p in all - {h} ensures InChain(m, shorter, p) {
      assert InChain(m, chains, p);
      if Home(m, p, |chains|) == b {
        var i :| 0 <= i < |chains[b]| && chains[b][i] == p;
        assert rest[if i < k then i else i - 1] == p;
      }
    }
  }

  /** Takes h out of its bucket. */
  method Remove(m: Mem, buckets: seq<Bucket>, ghost chains: seq<seq<Ptr>>, ghost all: set<Ptr>, h: Ptr)
    returns (m2: Mem, r: seq<Bucket>, ghost rc: seq<seq<Ptr>>)
    requires BucketsOk(m, buckets, chains, all) && h in all
    ensures |r| == |buckets| && BucketsOk(m2, r, rc, all - {h})
    ensures Relinked(m, m2, all - {h})
  {
    var b := Home(m, h, |buckets|);
    assert InChain(m, chains, h);
    ghost var chain := chains[b];
    ghost var k :| 0 <= k < |chain| && chain[k] == h;
    ghost var touched := Just(chain, k - 1) + Just(chain, k + 1);
    assert BucketOk(m, buckets[b], chain);
    var bkt;
    m2, bkt := Unlink(m, buckets[b], chain, k, h);
    r, rc := buckets[b := bkt], chains[b := Without(chain, k)];
    OthersRelinked(m, m2, touched, buckets, chains, all, b);
    PlacedRemove(m, chains, all, b, k);
    PlacedRelinked(m, m2, touched, rc, all - {h});
  }

  /** How many elements stand deeper in their chain than ideal. */
  ghost function Excess(chains: seq<seq<Ptr>>, ideal: nat): nat
  {
    if chains == [] then 0 else Over(|chains[0]|, ideal) + Excess(chains[1..], ideal)
  }

  function Over(count: nat, ideal: nat): nat { if count > ideal then count - ideal else 0 }

  lemma {:induction false} ExcessUpdate(chains: seq<seq<Ptr>>, ideal: nat, b: nat, c: seq<Ptr>)
    requires b < |chains|
    ensures Excess(chains[b := c], ideal) == Excess(chains, ideal) - Over(|chains[b]|, ideal) + Over(|c|, ideal)
  {
    if b == 0 {
      assert chains[b := c][1..] == chains[1..];
    } else {
      assert chains[b := c][1..] == chains[1..][b - 1 := c];
      ExcessUpdate(chains[1..], ideal, b - 1, c);
    }
  }

  function EmptyBuckets(n: nat): (r: seq<Bucket>)
    ensures |r| == n && forall b :: 0 <= b < n ==> r[b] == Bucket(NULL, 0, 0)
  {
    if n == 0 then [] else [Bucket(NULL, 0, 0)] + EmptyBuckets(n - 1)
  }

  ghost function NoChains(n: nat): (r: seq<seq<Ptr>>)
    ensures |r| == n && forall b :: 0 <= b < n ==> r[b] == []
  {
    if n == 0 then [] else [[]] + NoChains(n - 1)
  }

  lemma {:induction false} ExcessEmpty(n: nat, ideal: nat)
    ensures Excess(NoChains(n), ideal) == 0
  {
    if n > 0 { ExcessEmpty(n - 1, ideal); }
  }

  lemma BucketsEmpty(m: Mem, n: nat)
    requires n > 0
    ensures BucketsOk(m, EmptyBuckets(n), NoChains(n), {})
  {
  }

  ghost function SetOf(s: seq<Ptr>): set<Ptr> { set h | h in s }

  lemma SetOfTake(s: seq<Ptr>, k: nat)
    requires k < |s|
    ensures SetOf(s[..k + 1]) == SetOf(s[..k]) + {s[k]}
  {
    assert s[..k + 1] == s[..k] + [s[k]];
  }

  /** One round of HASH_EXPAND_BUCKETS: relinks h and counts it if it is too deep. */
  method MoveOne(m: Mem, h: Ptr, buckets: seq<Bucket>, ghost chains: seq<seq<Ptr>>, ghost moved: set<Ptr>,
                 ideal: nat, nonideal: nat)
    returns (m2: Mem, r: seq<Bucket>, ghost rc: seq<seq<Ptr>>, over: nat)
    requires BucketsOk(m, buckets, chains, moved) && h in m && h != NULL && h !in moved
    requires nonideal == Excess(chains, ideal)
    ensures |r| == |buckets| && BucketsOk(m2, r, rc, moved + {h})
    ensures Relinked(m, m2, moved + {h})
    ensures over == Excess(rc, ideal)
  {
    var b;
    m2, b, r, rc := Insert(m, buckets, chains, moved, h);
    ExcessUpdate(chains, ideal, b, rc[b]);
    assert BucketOk(m2, r[b], rc[b]);
    over := nonideal;
    if r[b].count > ideal {
      over := over + 1;
      if r[b].count > r[b].mult * ideal {
        r := r[b := r[b].(mult := r[b].mult + 1)];
      }
    }
  }

  lemma RelinkedTrans(m: Mem, m2: Mem, m3: Mem, a: set<Ptr>, b: set<Ptr>)
    requires Relinked(m, m2, a) && Relinked(m2, m3, b) && a <= b
    ensures Relinked(m, m3, b)
  {
  }

  /** The inner loop of HASH_EXPAND_BUCKETS: moves one old chain into the new buckets. */
  method MoveChain(m: Mem, head: Ptr, ghost chain: seq<Ptr>, buckets: seq<Bucket>, ghost chains: seq<seq<Ptr>>,
                   ghost moved: set<Ptr>, ideal: nat, nonideal: nat)
    returns (m2: Mem, r: seq<Bucket>, ghost rc: seq<seq<Ptr>>, over: nat)
    requires BucketsOk(m, buckets, chains, moved)
    requires head == At(chain, 0) && Chained(m, chain)
    requires forall i :: 0 <= i < |chain| ==> chain[i] !in moved
    requires nonideal == Excess(chains, ideal)
    ensures |r| == |buckets| && BucketsOk(m2, r, rc, moved + SetOf(chain))
    ensures Relinked(m, m2, moved + SetOf(chain))
    ensures over == Excess(rc, ideal)
  {
    m2, r, rc, over := m, buckets, chains, nonideal;
    ghost var k := 0;
    var thh := head;
    while thh != NULL
      invariant 0 <= k <= |chain| && thh == At(chain, k)
      invariant |r| == |buckets| && BucketsOk(m2, r, rc, moved + SetOf(chain[..k]))
      invariant Relinked(m, m2, moved + SetOf(chain[..k]))
      invariant over == Excess(rc, ideal)
      decreases |chain| - k
    {
      assert ChainedAt(m, chain, k);
      assert thh !in SetOf(chain[..k]);
      var next := m2[thh].hhNext;
      ghost var before, now := m2, moved + SetOf(chain[..k]);
      m2, r, rc, over := MoveOne(m2, thh, r, rc, now, ideal, over);
      SetOfTake(chain, k);
      assert now + {thh} == moved + SetOf(chain[..k + 1]);
      RelinkedTrans(m, before, m2, now, now + {thh});
      thh := next;
      k := k + 1;
    }
    assert chain[..k] == chain;
  }

  /** The elements that have been moved when i old buckets are done. */
  ghost function Moved(m: Mem, all: set<Ptr>, n: nat, i: nat): set<Ptr>
    requires n > 0 && all <= m.Keys
  {
    set h | h in all && Home(m, h, n) < i
  }

  lemma MovedNext(m: Mem, chains: seq<seq<Ptr>>, all: set<Ptr>, i: nat)
    requires Placed(m, chains, all) && i < |chains|
    ensures Moved(m, all, |chains|, i + 1) == Moved(m, all, |chains|, i) + SetOf(chains[i])
    ensures forall k :: 0 <= k < |chains[i]| ==> chains[i][k] !in Moved(m, all, |chains|, i)
  {
    forall h | h in all && Home(m, h, |chains|) == i ensures h in SetOf(chains[i]) {
      assert InChain(m, chains, h);
    }
  }

  /** Both loops of HASH_EXPAND_BUCKETS. */
  method Rehash(m: Mem, buckets: seq<Bucket>, ghost chains: seq<seq<Ptr>>, ghost all: set<Ptr>, ideal: nat)
    returns (m2: Mem, r: seq<Bucket>, ghost rc: seq<seq<Ptr>>, nonideal: nat)
    requires BucketsOk(m, buckets, chains, all)
    ensures |r| == 2 * |buckets| && BucketsOk(m2, r, rc, all)
    ensures Relinked(m, m2, all)
    ensures nonideal == Excess(rc, ideal)
  {
    ghost var n := |chains|;
    m2, r, rc, nonideal := m, EmptyBuckets(2 * |buckets|), NoChains(2 * n), 0;
    BucketsEmpty(m, 2 * n);
    ExcessEmpty(2 * n, ideal);
    assert Moved(m, all, n, 0) == {};
    for i := 0 to |buckets|
      invariant |r| == 2 * n && BucketsOk(m2, r, rc, Moved(m, all, n, i))
      invariant Relinked(m, m2, Moved(m, all, n, i))
      invariant nonideal == Excess(rc, ideal)
    {
      MovedNext(m, chains, all, i);
      assert BucketOk(m, buckets[i], chains[i]);
      ghost var before, moved := m2, Moved(m, all, n, i);
      ChainFrame(m, m2, moved, chains[i]);
      m2, r, rc, nonideal := MoveChain(m2, buckets[i].head, chains[i], r, rc, moved, ideal, nonideal);
      RelinkedTrans(m, before, m2, moved, moved + SetOf(chains[i]));
    }
    assert Moved(m, all, n, n) == all;
  }

  /** The chain length if all elements were spread evenly over twice the buckets, rounded up. */
  method IdealLength(items: nat, log2: nat, buckets: nat) returns (r: nat)
    requires buckets == Pow2(log2)
    ensures r == CeilOf(items, 2 * buckets)
  {
    MaskIsMod(items, log2 + 1);
    ShrIsDiv(items, log2 + 1);
    CeilDiv(items, 2 * buckets);
    r := Shr(items, log2 + 1) + if And(items, 2 * buckets - 1) != 0 then 1 else 0;
  }

  /** n / b, rounded up. */
  function CeilOf(n: nat, b: nat): int
    requires b > 0
  {
    (n + b - 1) / b
  }

  lemma CeilDiv(n: nat, b: nat)
    requires b > 0
    ensures CeilOf(n, b) == n / b + if n % b != 0 then 1 else 0
  {
    var q, r := n / b, n % b;
    if r == 0 {
      DivModUnique(n + b - 1, b, q, b - 1);
    } else {
      DivModUnique(n + b - 1, b, q + 1, r - 1);
    }
  }

  predicate ListedAt(m: Mem, s: seq<Ptr>, i: nat)
    requires i < |s| && s[i] in m
  {
    m[s[i]].prev == At(s, i - 1) && m[s[i]].next == At(s, i + 1)
  }

  /** s is a doubly linked list through next and prev. */
  predicate Listed(m: Mem, s: seq<Ptr>)
  {
    Distinct(s) && Live(m, s) && forall i :: 0 <= i < |s| ==> ListedAt(m, s, i)
  }

  /** m2 differs from m at most in the list links of the handles in touched. */
  ghost predicate Spliced(m: Mem, m2: Mem, touched: set<Ptr>)
  {
    m2.Keys == m.Keys &&
    forall p :: p in m ==>
      m2[p] == (if p in touched then m[p].(prev := m2[p].prev, next := m2[p].next) else m[p])
  }

  /** Changing list links leaves the buckets as they are. */
  lemma BucketsSpliced(m: Mem, m2: Mem, touched: set<Ptr>, buckets: seq<Bucket>, chains: seq<seq<Ptr>>, all: set<Ptr>)
    requires BucketsOk(m, buckets, chains, all) && Spliced(m, m2, touched)
    ensures BucketsOk(m2, buckets, chains, all)
  {
    forall p | p in all ensures InChain(m2, chains, p) { assert InChain(m, chains, p); }
    forall b | 0 <= b < |chains| ensures BucketOk(m2, buckets[b], chains[b]) {
      assert BucketOk(m, buckets[b], chains[b]);
      forall i | 0 <= i < |chains[b]| ensures ChainedAt(m2, chains[b], i) { assert ChainedAt(m, chains[b], i); }
    }
  }

  /** Changing chain links leaves the list as it is. */
  lemma ListRelinked(hash: Hash, m: Mem, m2: Mem, touched: set<Ptr>, head: Ptr, order: seq<Ptr>)
    requires ListOk(hash, m, head, order) && Relinked(m, m2, touched)
    ensures ListOk(hash, m2, head, order)
  {
    forall i | 0 <= i < |order| ensures ListedAt(m2, order, i) { assert ListedAt(m, order, i); }
  }

  /** HASH_APPEND_LIST. */
  method Append(m: Mem, tail: Ptr, ghost order: seq<Ptr>, h: Ptr) returns (m2: Mem)
    requires Listed(m, order) && order != [] && tail == order[|order| - 1]
    requires h in m && h != NULL && h !in order
    ensures Listed(m2, order + [h]) && Spliced(m, m2, {tail, h})
  {
    m2 := m[h := m[h].(next := NULL, prev := tail)];
    m2 := m2[tail := m2[tail].(next := h)];
    ghost var longer := order + [h];
    forall i | 0 <= i < |longer| ensures ListedAt(m2, longer, i) {
      assert i < |order| ==> ListedAt(m, order, i);
    }
  }

  /** The list part of HASH_DELETE_HH. */
  method Splice(m: Mem, head: Ptr, tail: Ptr, ghost order: seq<Ptr>, ghost k: nat, h: Ptr)
    returns (m2: Mem, head2: Ptr, tail2: Ptr)
    requires Listed(m, order) && k < |order| && order[k] == h
    requires head == order[0] && tail == order[|order| - 1] && |order| > 1
    ensures Listed(m2, Without(order, k)) && Spliced(m, m2, Just(order, k - 1) + Just(order, k + 1))
    ensures head2 == Without(order, k)[0] && tail2 == Without(order, k)[|order| - 2]
  {
    assert ListedAt(m, order, k);
    m2, head2, tail2 := m, head, tail;
    if h == tail {
      tail2 := m2[h].prev;
    }
    if m2[h].prev != NULL {
      m2 := m2[m2[h].prev := m2[m2[h].prev].(next := m2[h].next)];
    } else {
      head2 := m2[h].next;
    }
    if m2[h].next != NULL {
      m2 := m2[m2[h].next := m2[m2[h].next].(prev := m2[h].prev)];
    }
    ghost var rest := Without(order, k);
    forall i | 0 <= i < |rest| ensures ListedAt(m2, rest, i) {
      assert ListedAt(m, order, if i < k then i else i + 1);
    }
  }

  type Hash = seq<u8> -> nat

  ghost predicate ListOk(hash: Hash, m: Mem, head: Ptr, order: seq<Ptr>)
  {
    Listed(m, order) && head == At(order, 0) &&
    forall i :: 0 <= i < |order| ==> m[order[i]].hashv == hash(m[order[i]].key)
  }

  /** What is left of s when the elements of dead are taken out. */
  function Survivors(s: seq<Ptr>, dead: set<Ptr>): seq<Ptr>
  {
    if s == [] then []
    else (if s[0] in dead then [] else [s[0]]) + Survivors(s[1..], dead)
  }

  lemma {:induction false} SurvivorsNone(s: seq<Ptr>, dead: set<Ptr>)
    requires forall i :: 0 <= i < |s| ==> s[i] !in dead
    ensures Survivors(s, dead) == s
  {
    if s != [] { SurvivorsNone(s[1..], dead); }
  }

  lemma {:induction false} SurvivorsOne(s: seq<Ptr>, k: nat)
    requires Distinct(s) && k < |s|
    ensures Survivors(s, {s[k]}) == Without(s, k)
  {
    if k == 0 {
      SurvivorsNone(s[1..], {s[0]});
    } else {
      SurvivorsOne(s[1..], k - 1);
    }
  }

  lemma {:induction false} SurvivorsTake(s: seq<Ptr>, dead: set<Ptr>, k: nat)
    requires k < |s|
    ensures Survivors(s[..k + 1], dead)
      == (if s[k] in dead then Survivors(s[..k], dead) else Survivors(s[..k], dead) + [s[k]])
  {
    if k == 0 {
      assert s[..1] == [s[0]] && s[..1][1..] == [];
    } else {
      assert s[..k + 1][1..] == s[1..][..k] && s[..k][1..] == s[1..][..k - 1];
      SurvivorsTake(s[1..], dead, k - 1);
    }
  }

  /** Keys stay what they are, and handles outside touched do not change. */
  ghost predicate Kept(m: Mem, m2: Mem, touched: set<Ptr>)
  {
    m2.Keys == m.Keys && forall p :: p in m ==> m2[p].key == m[p].key && (p !in touched ==> m2[p] == m[p])
  }

  const INITIAL_BUCKETS := 32
  const INITIAL_LOG2 := 5
  const CAPACITY := 10

  /** Storing the hash value of an element that is not in the table yet touches nothing in the table. */
  lemma RehashedNew(m: Mem, m2: Mem, h: Ptr, buckets: seq<Bucket>, chains: seq<seq<Ptr>>, order: seq<Ptr>)
    requires Listed(m, order) && BucketsOk(m, buckets, chains, SetOf(order)) && h in m && h !in order
    requires h in m2 && m2 == m[h := m[h].(hashv := m2[h].hashv)]
    ensures Listed(m2, order) && BucketsOk(m2, buckets, chains, SetOf(order))
  {
    forall i | 0 <= i < |order| ensures ListedAt(m2, order, i) { assert ListedAt(m, order, i); }
    forall p | p in SetOf(order) ensures InChain(m2, chains, p) { assert InChain(m, chains, p); }
    forall b | 0 <= b < |chains| ensures BucketOk(m2, buckets[b], chains[b]) {
      assert BucketOk(m, buckets[b], chains[b]);
      forall i | 0 <= i < |chains[b]| ensures ChainedAt(m2, chains[b], i) { assert ChainedAt(m, chains[b], i); }
    }
  }

  /** The head pointer, the table it leads to and the memory the handles are in. */
  datatype Table = Table(mem: Mem, head: Ptr, tail: Ptr, numItems: nat, buckets: seq<Bucket>, log2: nat,
                         idealMax: nat, nonideal: nat, ineffective: nat, noExpand: bool)

  /**
   * All that HASH_FSCK checks, and that every element is in the bucket of its key's hash. The elements are
   * order in insertion order, and chains lists those of each bucket in chain order.
   */
  ghost predicate Valid(hash: Hash, t: Table, order: seq<Ptr>, chains: seq<seq<Ptr>>)
  {
    ListOk(hash, t.mem, t.head, order) && (order != [] ==> TableOk(t, order, chains))
  }

  ghost predicate TableOk(t: Table, order: seq<Ptr>, chains: seq<seq<Ptr>>)
  {
    t.tail == At(order, |order| - 1) && t.numItems == |order| &&
    |t.buckets| == Pow2(t.log2) && BucketsOk(t.mem, t.buckets, chains, SetOf(order))
  }

  /** The comparison of a search: first the hash values, then the keys as they are now. */
  predicate Matches(hash: Hash, m: Mem, p: Ptr, key: seq<u8>)
    requires p in m
  {
    m[p].hashv == hash(key) && m[p].key == key
  }

  /** HASH_FIND_IN_BKT on the bucket of the key: finds an element that matches exactly if there is one. */
  method FindInBucket(hash: Hash, t: Table, ghost order: seq<Ptr>, ghost chains: seq<seq<Ptr>>, key: seq<u8>)
    returns (out: Ptr)
    requires order != [] && TableOk(t, order, chains)
    ensures out != NULL ==> out in order && out in t.mem && Matches(hash, t.mem, out, key)
    ensures out == NULL ==> forall i :: 0 <= i < |order| ==> order[i] in t.mem && !Matches(hash, t.mem, order[i], key)
  {
    var hv := hash(key);
    var b := Slot(hv, |t.buckets|);
    ghost var chain := chains[b];
    ghost var k := 0;
    assert BucketOk(t.mem, t.buckets[b], chain);
    out := t.buckets[b].head;
    while out != NULL
      invariant 0 <= k <= |chain| && out == At(chain, k)
      invariant forall i :: 0 <= i < k ==> !Matches(hash, t.mem, chain[i], key)
      decreases |chain| - k
    {
      assert ChainedAt(t.mem, chain, k) && chain[k] in SetOf(order);
      if t.mem[out].hashv == hv && |t.mem[out].key| == |key| && t.mem[out].key == key { return; }
      out := t.mem[out].hhNext;
      k := k + 1;
    }
    forall i | 0 <= i < |order| ensures order[i] in t.mem && !Matches(hash, t.mem, order[i], key) {
      assert order[i] in SetOf(order);
      assert InChain(t.mem, chains, order[i]);
    }
  }

  /** HASH_FIND: finds an element with that key exactly if there is one. */
  method Find(hash: Hash, t: Table, ghost order: seq<Ptr>, ghost chains: seq<seq<Ptr>>, key: seq<u8>) returns (out: Ptr)
    requires Valid(hash, t, order, chains)
    ensures out != NULL ==> out in order && t.mem[out].key == key
    ensures out == NULL ==> forall i :: 0 <= i < |order| ==> t.mem[order[i]].key != key
  {
    if t.head == NULL { return NULL; }
    out := FindInBucket(hash, t, order, chains, key);
  }

  /**
   * The table refers to the key inside the element. If that is overwritten while the element is in the table, the
   * element is found under its old key never, and under its new one only if both have the same hash value.
   */
  lemma KeyOverwritten(hash: Hash, t: Table, order: seq<Ptr>, chains: seq<seq<Ptr>>, p: Ptr, key: seq<u8>)
    requires Valid(hash, t, order, chains) && p in order && key != t.mem[p].key
    ensures var m := t.mem[p := t.mem[p].(key := key)];
            TableOk(t.(mem := m), order, chains) && !Matches(hash, m, p, t.mem[p].key) &&
            (Matches(hash, m, p, key) <==> hash(key) == hash(t.mem[p].key))
  {
    var m := t.mem[p := t.mem[p].(key := key)];
    forall q | q in SetOf(order) ensures InChain(m, chains, q) { assert InChain(t.mem, chains, q); }
    forall b | 0 <= b < |chains| ensures BucketOk(m, t.buckets[b], chains[b]) {
      assert BucketOk(t.mem, t.buckets[b], chains[b]);
      forall i | 0 <= i < |chains[b]| ensures ChainedAt(m, chains[b], i) { assert ChainedAt(t.mem, chains[b], i); }
    }
  }

  /** HASH_EXPAND_BUCKETS: twice as many buckets, the same elements. */
  method Expand(ghost hash: Hash, t: Table, ghost order: seq<Ptr>, ghost chains: seq<seq<Ptr>>)
    returns (t2: Table, ghost rc: seq<seq<Ptr>>)
    requires Valid(hash, t, order, chains) && order != []
    ensures Valid(hash, t2, order, rc) && Kept(t.mem, t2.mem, SetOf(order)) && |t2.buckets| == 2 * |t.buckets|
    ensures t2.idealMax == CeilOf(t2.numItems, |t2.buckets|) && t2.nonideal == Excess(rc, t2.idealMax)
    ensures t2.ineffective == (if t2.nonideal > t2.numItems / 2 then t.ineffective + 1 else 0)
    ensures t2.noExpand == (t.noExpand || t2.ineffective > 1)
  {
    var ideal := IdealLength(t.numItems, t.log2, |t.buckets|);
    var m, r, over;
    m, r, rc, over := Rehash(t.mem, t.buckets, chains, SetOf(order), ideal);
    ListRelinked(hash, t.mem, m, SetOf(order), t.head, order);
    var bad := if over > t.numItems / 2 then t.ineffective + 1 else 0;
    t2 := t.(mem := m, buckets := r, log2 := t.log2 + 1, idealMax := ideal, nonideal := over,
             ineffective := bad, noExpand := t.noExpand || bad > 1);
  }

  /** The list part of HASH_ADD: the first element also makes the table. */
  method LinkIn(hash: Hash, t: Table, ghost order: seq<Ptr>, ghost chains: seq<seq<Ptr>>, h: Ptr)
    returns (t2: Table, ghost rc: seq<seq<Ptr>>)
    requires Valid(hash, t, order, chains) && h in t.mem && h != NULL && h !in order
    ensures ListOk(hash, t2.mem, t2.head, order + [h])
    ensures t2.tail == h && t2.numItems == |order| && |t2.buckets| == Pow2(t2.log2)
    ensures BucketsOk(t2.mem, t2.buckets, rc, SetOf(order))
    ensures Kept(t.mem, t2.mem, SetOf(order) + {h})
  {
    rc := chains;
    var m := t.mem[h := t.mem[h].(hashv := hash(t.mem[h].key))];
    if t.head == NULL {
      m := m[h := m[h].(next := NULL, prev := NULL)];
      rc := NoChains(INITIAL_BUCKETS);
      Pow2Values();
      BucketsEmpty(m, INITIAL_BUCKETS);
      assert SetOf([]) == {} && order + [h] == [h] && ListedAt(m, [h], 0);
      t2 := Table(m, h, h, 0, EmptyBuckets(INITIAL_BUCKETS), INITIAL_LOG2, 0, 0, 0, false);
    } else {
      RehashedNew(t.mem, m, h, t.buckets, chains, order);
      var m2 := Append(m, t.tail, order, h);
      BucketsSpliced(m, m2, {t.tail, h}, t.buckets, chains, SetOf(order));
      t2 := t.(mem := m2, tail := h);
    }
  }

  lemma SetOfSnoc(s: seq<Ptr>, h: Ptr)
    ensures SetOf(s + [h]) == SetOf(s) + {h}
  {
  }

  lemma KeptRelinked(m: Mem, m2: Mem, m3: Mem, all: set<Ptr>)
    requires Kept(m, m2, all) && Relinked(m2, m3, all)
    ensures Kept(m, m3, all)
  {
  }

  /** HASH_ADD: h becomes the last element; its bucket may overflow and double the table. */
  method Add(hash: Hash, t: Table, ghost order: seq<Ptr>, ghost chains: seq<seq<Ptr>>, h: Ptr)
    returns (t2: Table, ghost rc: seq<seq<Ptr>>)
    requires Valid(hash, t, order, chains) && h in t.mem && h != NULL && h !in order
    ensures Valid(hash, t2, order + [h], rc) && Kept(t.mem, t2.mem, SetOf(order) + {h})
  {
    t2, rc := LinkIn(hash, t, order, chains, h);
    SetOfSnoc(order, h);
    ghost var all := SetOf(order) + {h};
    var m, b, r;
    m, b, r, rc := Insert(t2.mem, t2.buckets, rc, SetOf(order), h);
    KeptRelinked(t.mem, t2.mem, m, all);
    ListRelinked(hash, t2.mem, m, all, t2.head, order + [h]);
    t2 := t2.(mem := m, buckets := r, numItems := t2.numItems + 1);
    if t2.buckets[b].count >= (t2.buckets[b].mult + 1) * CAPACITY && !t2.noExpand {
      t2, rc := ExpandKept(hash, t.mem, t2, order + [h], rc);
    }
  }

  method ExpandKept(ghost hash: Hash, ghost m: Mem, t: Table, ghost order: seq<Ptr>, ghost chains: seq<seq<Ptr>>)
    returns (t2: Table, ghost rc: seq<seq<Ptr>>)
    requires Valid(hash, t, order, chains) && order != [] && Kept(m, t.mem, SetOf(order))
    ensures Valid(hash, t2, order, rc) && Kept(m, t2.mem, SetOf(order))
  {
    t2, rc := Expand(hash, t, order, chains);
  }

  lemma SetOfWithout(s: seq<Ptr>, k: nat)
    requires k < |s| && Distinct(s)
    ensures SetOf(Without(s, k)) == SetOf(s) - {s[k]}
  {
    var r := Without(s, k);
    forall p | p in SetOf(s) - {s[k]} ensures p in SetOf(r) {
      var i :| 0 <= i < |s| && s[i] == p;
      assert r[if i < k then i else i - 1] == p;
    }
  }

  /** The list part of HASH_DELETE when other elements remain. */
  method CutOut(ghost hash: Hash, t: Table, ghost order: seq<Ptr>, ghost chains: seq<seq<Ptr>>, ghost k: nat, h: Ptr)
    returns (t2: Table)
    requires Valid(hash, t, order, chains) && |order| > 1 && k < |order| && order[k] == h
    ensures ListOk(hash, t2.mem, t2.head, Without(order, k)) && t2.tail == Without(order, k)[|order| - 2]
    ensures BucketsOk(t2.mem, t.buckets, chains, SetOf(order))
    ensures Kept(t.mem, t2.mem, SetOf(order)) && t2 == t.(mem := t2.mem, head := t2.head, tail := t2.tail)
  {
    var m, head, tail := Splice(t.mem, t.head, t.tail, order, k, h);
    BucketsSpliced(t.mem, m, Just(order, k - 1) + Just(order, k + 1), t.buckets, chains, SetOf(order));
    t2 := t.(mem := m, head := head, tail := tail);
  }

  /** HASH_DELETE when other elements remain. */
  method DeleteOne(ghost hash: Hash, t: Table, ghost order: seq<Ptr>, ghost chains: seq<seq<Ptr>>, ghost k: nat, h: Ptr)
    returns (t2: Table, ghost rc: seq<seq<Ptr>>)
    requires Valid(hash, t, order, chains) && |order| > 1 && k < |order| && order[k] == h
    ensures Valid(hash, t2, Without(order, k), rc) && Kept(t.mem, t2.mem, SetOf(order))
  {
    t2 := CutOut(hash, t, order, chains, k, h);
    SetOfWithout(order, k);
    var m, r;
    m, r, rc := Remove(t2.mem, t2.buckets, chains, SetOf(order), h);
    ListRelinked(hash, t2.mem, m, SetOf(order) - {h}, t2.head, Without(order, k));
    t2 := t2.(mem := m, buckets := r, numItems := t2.numItems - 1);
  }

  /** HASH_DELETE: the other elements stay, in their order; the last one frees the table. */
  method Delete(ghost hash: Hash, t: Table, ghost order: seq<Ptr>, ghost chains: seq<seq<Ptr>>, h: Ptr)
    returns (t2: Table, ghost rc: seq<seq<Ptr>>)
    requires Valid(hash, t, order, chains) && h in order
    ensures Valid(hash, t2, Survivors(order, {h}), rc) && Kept(t.mem, t2.mem, SetOf(order))
  {
    ghost var k :| 0 <= k < |order| && order[k] == h;
    SurvivorsOne(order, k);
    assert ListedAt(t.mem, order, k);
    if t.mem[h].prev == NULL && t.mem[h].next == NULL {
      assert |order| == 1 by { assert k == 0; }
      t2, rc := t.(head := NULL), chains;
    } else {
      t2, rc := DeleteOne(hash, t, order, chains, k, h);
    }
  }

  lemma SurvivorsAppend(a: seq<Ptr>, b: seq<Ptr>)
    requires b != [] && Distinct(a + b)
    ensures Survivors(a + b, {b[0]}) == a + b[1..]
  {
    var s := a + b;
    assert s[|a|] == b[0];
    SurvivorsOne(s, |a|);
    assert Without(s, |a|) == a + b[1..];
  }

  /** The element at the front of a list's rest, and its successor. */
  lemma Front(m: Mem, a: seq<Ptr>, b: seq<Ptr>)
    requires Listed(m, a + b) && b != []
    ensures b[0] in m && b[0] != NULL && m[b[0]].next == At(b, 1)
  {
    var s := a + b;
    assert s[|a|] == b[0] && ListedAt(m, s, |a|);
    assert |b| > 1 ==> s[|a| + 1] == b[1];
  }

  /** The start of the next round of HASH_ITER. */
  method Step(ghost hash: Hash, t: Table, ghost a: seq<Ptr>, ghost b: seq<Ptr>, ghost chains: seq<seq<Ptr>>, el: Ptr)
    returns (tmp: Ptr)
    requires Valid(hash, t, a + b, chains) && el == At(b, 0)
    ensures tmp == At(b, 1) && (el != NULL <==> b != [])
  {
    if b != [] { Front(t.mem, a, b); }
    tmp := if el != NULL then t.mem[el].next else NULL;
  }

  method DeleteFront(ghost hash: Hash, t: Table, ghost a: seq<Ptr>, ghost b: seq<Ptr>, ghost chains: seq<seq<Ptr>>,
                     h: Ptr)
    returns (t2: Table, ghost rc: seq<seq<Ptr>>)
    requires Valid(hash, t, a + b, chains) && b != [] && h == b[0]
    ensures Valid(hash, t2, a + b[1..], rc) && Kept(t.mem, t2.mem, SetOf(a + b))
  {
    assert (a + b)[|a|] == h;
    SurvivorsAppend(a, b);
    t2, rc := Delete(hash, t, a + b, chains, h);
  }

  lemma {:induction false} SurvivorsAmong(s: seq<Ptr>, dead: set<Ptr>)
    ensures SetOf(Survivors(s, dead)) <= SetOf(s)
  {
    if s != [] {
      var rest := s[1..];
      SurvivorsAmong(rest, dead);
      forall p | p in Survivors(s, dead) ensures p in s {
        if p != s[0] {
          assert p in SetOf(Survivors(rest, dead));
          assert p in rest;
        }
      }
    }
  }

  /** What an iteration still has before it is part of what it began with. */
  lemma LeftAmong(order: seq<Ptr>, dead: set<Ptr>, i: nat)
    requires i <= |order|
    ensures SetOf(Survivors(order[..i], dead) + order[i..]) <= SetOf(order)
  {
    SurvivorsAmong(order[..i], dead);
    forall p | p in SetOf(Survivors(order[..i], dead)) ensures p in SetOf(order) { assert p in order[..i]; }
  }

  lemma KeptTwice(m: Mem, m2: Mem, m3: Mem, all: set<Ptr>, some: set<Ptr>)
    requires Kept(m, m2, all) && Kept(m2, m3, some) && some <= all
    ensures Kept(m, m3, all)
  {
  }

  /**
   * HASH_ITER has visited i elements of the original order and holds the next two; of the memory m it started
   * with, only links of the elements have changed.
   */
  ghost predicate Iterating(hash: Hash, m: Mem, t: Table, order: seq<Ptr>, dead: set<Ptr>, chains: seq<seq<Ptr>>,
                            i: nat, el: Ptr, tmp: Ptr)
  {
    i <= |order| && Valid(hash, t, Survivors(order[..i], dead) + order[i..], chains) && Kept(m, t.mem, SetOf(order)) &&
    el == At(order, i) && tmp == At(order, i + 1) && (el != NULL <==> i < |order|)
  }

  /** One round of HASH_ITER: the body deletes el if it is in dead. */
  method Round(ghost hash: Hash, ghost m: Mem, t: Table, ghost order: seq<Ptr>, dead: set<Ptr>,
               ghost chains: seq<seq<Ptr>>, ghost i: nat, el: Ptr, tmp: Ptr)
    returns (t2: Table, el2: Ptr, tmp2: Ptr, ghost rc: seq<seq<Ptr>>)
    requires Iterating(hash, m, t, order, dead, chains, i, el, tmp) && el != NULL
    ensures Iterating(hash, m, t2, order, dead, rc, i + 1, el2, tmp2)
  {
    hide Valid, Kept, Survivors, SetOf;
    ghost var kept, rest := Survivors(order[..i], dead), order[i..];
    SurvivorsTake(order, dead, i);
    LeftAmong(order, dead, i);
    assert rest[0] == el && rest[1..] == order[i + 1..];
    t2, rc := t, chains;
    if el in dead {
      t2, rc := DeleteFront(hash, t, kept, rest, chains, el);
      KeptTwice(m, t.mem, t2.mem, SetOf(order), SetOf(kept + rest));
    } else {
      assert kept + rest == Survivors(order[..i + 1], dead) + order[i + 1..];
    }
    el2 := tmp;
    tmp2 := Step(hash, t2, Survivors(order[..i + 1], dead), order[i + 1..], rc, el2);
  }

  /**
   * HASH_ITER whose body deletes the elements in dead: the successor is read before the body runs, so every
   * element is visited once and exactly the others remain, in their order and with their keys.
   */
  method Sweep(ghost hash: Hash, t: Table, ghost order: seq<Ptr>, ghost chains: seq<seq<Ptr>>, dead: set<Ptr>)
    returns (t2: Table, visited: seq<Ptr>, ghost rc: seq<seq<Ptr>>)
    requires Valid(hash, t, order, chains)
    ensures Valid(hash, t2, Survivors(order, dead), rc) && visited == order && Kept(t.mem, t2.mem, SetOf(order))
  {
    hide Valid, Kept;
    t2, visited, rc := t, [], chains;
    var el, tmp := SweepStart(hash, t, order, chains, dead);
    while el != NULL
      invariant Iterating(hash, t.mem, t2, order, dead, rc, |visited|, el, tmp) && visited == order[..|visited|]
      decreases |order| - |visited|
    {
      ghost var i := |visited|;
      visited := visited + [el];
      t2, el, tmp, rc := Round(hash, t.mem, t2, order, dead, rc, i, el, tmp);
    }
    SweepEnd(hash, t2, order, chains, dead, rc, visited);
  }

  method SweepStart(ghost hash: Hash, t: Table, ghost order: seq<Ptr>, ghost chains: seq<seq<Ptr>>,
                    ghost dead: set<Ptr>)
    returns (el: Ptr, tmp: Ptr)
    requires Valid(hash, t, order, chains)
    ensures Iterating(hash, t.mem, t, order, dead, chains, 0, el, tmp)
  {
    assert order[..0] == [] && order[0..] == order && [] + order == order;
    el := t.head;
    tmp := Step(hash, t, [], order, chains, el);
  }

  lemma SweepEnd(hash: Hash, t: Table, order: seq<Ptr>, chains: seq<seq<Ptr>>, dead: set<Ptr>, rc: seq<seq<Ptr>>,
                 visited: seq<Ptr>)
    requires |visited| == |order| && visited == order[..|visited|]
    requires Valid(hash, t, Survivors(order[..|visited|], dead) + order[|visited|..], rc)
    ensures visited == order && Valid(hash, t, Survivors(order, dead), rc)
  {
    assert Survivors(order, dead) + order[|order|..] == Survivors(order, dead);
  }

  class HashTable {
    const hash: Hash
    var t: Table
    ghost var order: seq<Ptr>
    ghost var chains: seq<seq<Ptr>>

    ghost predicate Ok()
      reads this
    {
      Valid(hash, t, order, chains)
    }

    constructor (hash: Hash, mem: Mem)
      ensures Ok() && order == [] && t.mem == mem
    {
      this.hash := hash;
      t := Table(mem, NULL, NULL, 0, [], 0, 0, 0, 0, false);
      order, chains := [], [];
    }

    method Insert(h: Ptr)
      requires Ok() && h in t.mem && h != NULL && h !in order
      modifies this
      ensures Ok() && order == old(order) + [h] && Kept(old(t.mem), t.mem, SetOf(order))
    {
      SetOfSnoc(order, h);
      var t2, rc := Add(hash, t, order, chains, h);
      t, chains, order := t2, rc, order + [h];
    }

    method Erase(h: Ptr)
      requires Ok() && h in order
      modifies this
      ensures Ok() && order == Survivors(old(order), {h}) && Kept(old(t.mem), t.mem, SetOf(old(order)))
    {
      var t2, rc := Delete(hash, t, order, chains, h);
      t, chains, order := t2, rc, Survivors(order, {h});
    }

    method EraseAll(dead: set<Ptr>)
      requires Ok()
      modifies this
      ensures Ok() && order == Survivors(old(order), dead) && Kept(old(t.mem), t.mem, SetOf(old(order)))
    {
      var t2, visited, rc := Sweep(hash, t, order, chains, dead);
      t, chains, order := t2, rc, Survivors(order, dead);
    }
  }
}
