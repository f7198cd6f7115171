/**
 * The address pool: a bitmap searched next-fit from a hint. Addresses are host-order words.
 */
module IpPool {
  import opened Common
  import opened Words
  import opened NatLemmas
  import opened Bits

  /** The marked positions and where the next search starts. */
  datatype Pool = Pool(marked: seq<bool>, hint: nat) {
    predicate Valid() { hint < |marked| }
  }

  predicate AllMarked(p: Pool) { forall i :: 0 <= i < |p.marked| ==> p.marked[i] }

  /** The position k steps after h on a circle of n. */
  function Around(h: nat, k: nat, n: nat): (r: nat)
    requires h < n && k <= n
    ensures r < n
  {
    if h + k < n then h + k else h + k - n
  }

  /** The first free position in cyclic order from k steps after the hint. */
  function Pick(p: Pool, k: nat): (r: Option<nat>)
    requires p.Valid() && k <= |p.marked|
    ensures r.Some? ==> r.value < |p.marked| && !p.marked[r.value]
    decreases |p.marked| - k
  {
    if k == |p.marked| then None
    else
      var pos := Around(p.hint, k, |p.marked|);
      if p.marked[pos] then Pick(p, k + 1) else Some(pos)
  }

  /** How far x lies after a, going round; a itself comes last. */
  function After(a: nat, x: nat, n: nat): (d: nat)
    requires a < n && x < n
    ensures d < n
  {
    if x > a then x - a - 1 else x + n - a - 1
  }

  /** The pick is free, and everything between the hint and the pick is taken. */
  lemma {:induction false} PickIsFirst(p: Pool, k: nat, b: nat)
    requires p.Valid() && k <= b < |p.marked| && !p.marked[Around(p.hint, b, |p.marked|)]
    ensures Pick(p, k).Some?
    ensures exists j :: k <= j <= b && Pick(p, k).value == Around(p.hint, j, |p.marked|)
    decreases b - k
  {
    if p.marked[Around(p.hint, k, |p.marked|)] { PickIsFirst(p, k + 1, b); }
  }

  /** There is a pick exactly if some position is free. */
  lemma PickExists(p: Pool)
    requires p.Valid()
    ensures Pick(p, 0).None? <==> AllMarked(p)
  {
    forall i | 0 <= i < |p.marked| && !p.marked[i] ensures Pick(p, 0).Some? {
      var b := if i >= p.hint then i - p.hint else i + |p.marked| - p.hint;
      assert Around(p.hint, b, |p.marked|) == i;
      PickIsFirst(p, 0, b);
    }
  }

  datatype Event = Alloc | Free(pos: nat)

  /** Out-of-range frees change nothing. */
  function Step(p: Pool, e: Event): (q: Pool)
    requires p.Valid()
    ensures q.Valid() && |q.marked| == |p.marked|
  {
    match e
    case Free(pos) => if pos < |p.marked| then p.(marked := p.marked[pos := false]) else p
    case Alloc => Taken(p, Pick(p, 0))
  }

  /** The pool when the position picked is marked and the search goes on behind it. */
  function Taken(p: Pool, pick: Option<nat>): (q: Pool)
    requires p.Valid() && (pick.Some? ==> pick.value < |p.marked|)
    ensures q.Valid() && |q.marked| == |p.marked|
  {
    match pick
    case None => p
    case Some(pos) => Pool(p.marked[pos := true], Around(pos, 1, |p.marked|))
  }

  function Run(p: Pool, es: seq<Event>): (q: Pool)
    requires p.Valid()
    ensures q.Valid() && |q.marked| == |p.marked|
    decreases |es|
  {
    if es == [] then p else Run(Step(p, es[0]), es[1..])
  }

  /** b is free in every state of the run, from the first to the last. */
  predicate StaysFree(p: Pool, es: seq<Event>, b: nat)
    requires p.Valid() && b < |p.marked|
    decreases |es|
  {
    !p.marked[b] && (es == [] || StaysFree(Step(p, es[0]), es[1..], b))
  }

  /** An allocation goes no further than a free position b; b itself is taken only by marking it. */
  lemma PickBefore(p: Pool, a: nat, b: nat)
    requires p.Valid() && a < |p.marked| && b < |p.marked| && !p.marked[b]
    requires After(a, p.hint, |p.marked|) <= After(a, b, |p.marked|)
    ensures var n := |p.marked|;
            Pick(p, 0).Some? && After(a, p.hint, n) <= After(a, Pick(p, 0).value, n) <= After(a, b, n)
  {
    var n := |p.marked|;
    var d := After(a, b, n) - After(a, p.hint, n);
    assert Around(p.hint, d, n) == b;
    PickIsFirst(p, 0, d);
    var j :| 0 <= j <= d && Pick(p, 0).value == Around(p.hint, j, n);
    assert After(a, Around(p.hint, j, n), n) == After(a, p.hint, n) + j;
  }

  /** As long as b stays free, the search does not come round from behind a to a. */
  lemma {:induction false} NotAgain(p: Pool, es: seq<Event>, a: nat, b: nat)
    requires p.Valid() && a < |p.marked| && b < |p.marked| && a != b && StaysFree(p, es, b)
    requires After(a, p.hint, |p.marked|) <= After(a, b, |p.marked|)
    ensures After(a, Run(p, es).hint, |p.marked|) <= After(a, b, |p.marked|)
    decreases |es|
  {
    if es != [] {
      if es[0].Alloc? { PickBefore(p, a, b); }
      NotAgain(Step(p, es[0]), es[1..], a, b);
    }
  }

  /**
   * Once a has been allocated, it is not allocated again while some other position stays free: every other
   * position is taken at least once in between.
   */
  lemma Fairness(p: Pool, es: seq<Event>, a: nat, b: nat)
    requires p.Valid() && a < |p.marked| && b < |p.marked| && a != b
    requires Pick(p, 0) == Some(a)
    requires StaysFree(Step(p, Alloc), es, b)
    ensures Pick(Run(Step(p, Alloc), es), 0) != Some(a)
  {
    var q := Step(p, Alloc);
    var r := Run(q, es);
    NotAgain(q, es, a, b);
    StaysFreeEnd(q, es, b);
    PickBefore(r, a, b);
  }

  lemma {:induction false} StaysFreeEnd(p: Pool, es: seq<Event>, b: nat)
    requires p.Valid() && b < |p.marked| && StaysFree(p, es, b)
    ensures !Run(p, es).marked[b]
    decreases |es|
  {
    if es != [] { StaysFreeEnd(Step(p, es[0]), es[1..], b); }
  }

  /** b & (1 << k) != 0. */
  predicate Has(b: nat, k: nat)
    decreases k
  {
    if k == 0 then b % 2 == 1 else Has(b / 2, k - 1)
  }

  /** b | (1 << k), or b & ~(1 << k) if v is false. */
  function Put(b: nat, k: nat, v: bool): nat
    decreases k
  {
    if k == 0 then b - b % 2 + (if v then 1 else 0) else 2 * Put(b / 2, k - 1, v) + b % 2
  }

  lemma {:induction false} PutHas(b: nat, k: nat, v: bool, j: nat)
    ensures Has(Put(b, k, v), j) == if j == k then v else Has(b, j)
    decreases k
  {
    if k > 0 && j > 0 { PutHas(b / 2, k - 1, v, j - 1); }
  }

  lemma {:induction false} PutBound(b: nat, k: nat, v: bool, w: nat)
    requires b < Pow2(w) && k < w
    ensures Put(b, k, v) < Pow2(w)
    decreases k
  {
    var p := Pow2(w - 1);
    if k > 0 { PutBound(b / 2, k - 1, v, w - 1); } else { EvenBelow(b, p); }
  }

  lemma EvenBelow(b: nat, p: nat)
    requires b < 2 * p
    ensures b - b % 2 + 1 < 2 * p
  {
  }

  function PutByte(b: u8, k: nat, v: bool): u8
    requires k < 8
  {
    Pow2Values();
    PutBound(b, k, v, 8);
    Put(b, k, v)
  }

  /** The first n bits. */
  function Unpacked(bytes: seq<u8>, n: nat): (r: seq<bool>)
    requires n <= 8 * |bytes|
    ensures |r| == n && forall i :: 0 <= i < n ==> r[i] == Has(bytes[i / 8], i % 8)
  {
    seq(n, i requires 0 <= i < n => Has(bytes[i / 8], i % 8))
  }

  /** Changing one bit of a byte changes one bit of the whole. */
  lemma ChangeBit(bytes: seq<u8>, n: nat, i: nat, v: bool)
    requires i < n <= 8 * |bytes|
    ensures Unpacked(bytes[i / 8 := PutByte(bytes[i / 8], i % 8, v)], n) == Unpacked(bytes, n)[i := v]
  {
    var b := PutByte(bytes[i / 8], i % 8, v);
    var after := bytes[i / 8 := b];
    forall j | 0 <= j < n ensures Unpacked(after, n)[j] == Unpacked(bytes, n)[i := v][j] {
      if j / 8 == i / 8 {
        PutHas(bytes[i / 8], i % 8, v, j % 8);
        assert j % 8 == i % 8 <==> j == i;
      }
    }
  }

  /** The position that the source looks at in round k: a 32-bit sum modulo the pool size. */
  function ProbeAt(hint: nat, k: nat, n: nat): (pos: nat)
    requires n > 0
    ensures pos < n
  {
    ModBound((hint + k) % 0x1_0000_0000, n);
    (hint + k) % 0x1_0000_0000 % n
  }

  lemma ModBound(x: int, n: int)
    requires n > 0
    ensures 0 <= x % n < n
  {
  }

  /** The first free position in the order of the source's search. */
  function Search(p: Pool, k: nat): (r: Option<nat>)
    requires p.Valid() && k <= |p.marked|
    ensures r.Some? ==> r.value < |p.marked| && !p.marked[r.value]
    decreases |p.marked| - k
  {
    if k == |p.marked| then None
    else
      var pos := ProbeAt(p.hint, k, |p.marked|);
      if p.marked[pos] then Search(p, k + 1) else Some(pos)
  }

  lemma SearchStep(p: Pool, k: nat)
    requires p.Valid() && k < |p.marked|
    ensures var pos := ProbeAt(p.hint, k, |p.marked|);
            Search(p, k) == if p.marked[pos] then Search(p, k + 1) else Some(pos)
  {
  }

  lemma SearchEnd(p: Pool)
    requires p.Valid()
    ensures Search(p, |p.marked|) == None
  {
  }

  lemma ProbeAround(h: nat, k: nat, n: nat)
    requires h < n <= 0x8000_0000 && k < n
    ensures ProbeAt(h, k, n) == Around(h, k, n)
  {
    if h + k < n { DivModUnique(h + k, n, 0, h + k); } else { DivModUnique(h + k, n, 1, h + k - n); }
  }

  lemma {:induction false} SearchIsPick(p: Pool, k: nat)
    requires p.Valid() && k <= |p.marked| <= 0x8000_0000
    ensures Search(p, k) == Pick(p, k)
    decreases |p.marked| - k
  {
    hide ProbeAt, Around;
    if k < |p.marked| {
      ProbeAround(p.hint, k, |p.marked|);
      SearchIsPick(p, k + 1);
    }
  }

  /** Up to 2^31 addresses the search fails exactly if everything is marked. */
  lemma SearchFails(p: Pool)
    requires p.Valid() && |p.marked| <= 0x8000_0000
    ensures Search(p, 0).None? <==> AllMarked(p)
  {
    hide Search, Pick;
    SearchIsPick(p, 0);
    PickExists(p);
  }

  /** A search from the last position of a larger pool never comes to the last but one. */
  lemma NeverProbed(k: nat, n: nat)
    requires 0x8000_0000 < n < 0x1_0000_0000 && k < n
    ensures ProbeAt(n - 1, k, n) != n - 2
  {
    var x := n - 1 + k;
    if x < n {
      DivModUnique(x, n, 0, x);
    } else if x < 0x1_0000_0000 {
      DivModUnique(x, n, 1, x - n);
    } else {
      DivModUnique(x - 0x1_0000_0000, n, 0, x - 0x1_0000_0000);
    }
  }

  /** All positions but the last but one are taken, and the search starts at the last. */
  function Unlucky(n: nat): (p: Pool)
    requires n >= 2
    ensures p.Valid() && |p.marked| == n && p.hint == n - 1 && forall i :: 0 <= i < n ==> p.marked[i] == (i != n - 2)
  {
    Pool(seq(n, i => i != n - 2), n - 1)
  }

  lemma {:induction false} SearchMisses(n: nat, k: nat)
    requires 0x8000_0000 < n < 0x1_0000_0000 && k <= n
    ensures Search(Unlucky(n), k) == None
    decreases n - k
  {
    if k < n {
      NeverProbed(k, n);
      SearchMisses(n, k + 1);
    }
  }

  /** The source's search is the cyclic search in every pool of n addresses if and only if n is at most 2^31. */
  lemma SearchExact(n: u32)
    requires n > 0
    ensures (forall p: Pool :: p.Valid() && |p.marked| == n ==> Search(p, 0) == Pick(p, 0)) <==> n <= 0x8000_0000
  {
    if n <= 0x8000_0000 {
      forall p: Pool | p.Valid() && |p.marked| == n ensures Search(p, 0) == Pick(p, 0) { SearchIsPick(p, 0); }
    } else {
      var p := Unlucky(n);
      SearchMisses(n, 0);
      PickExists(p);
      assert !p.marked[n - 2];
      assert Search(p, 0) != Pick(p, 0);
    }
  }

  method Next(pos: u32, size: u32) returns (hint: u32)
    requires pos < size
    ensures hint == Around(pos, 1, size)
  {
    if pos + 1 < size { DivModUnique(pos + 1, size, 0, pos + 1); } else { DivModUnique(pos + 1, size, 1, 0); }
    hint := (pos + 1) % size;
  }

  lemma {:induction false} ZeroHas(k: nat)
    ensures !Has(0, k)
  {
    if k > 0 { ZeroHas(k - 1); }
  }

  /** The addresses that are never handed out: last byte 0, 1 or 255. */
  predicate Reserved(ip: u32) { ip % 0x100 == 0 || ip % 0x100 == 1 || ip % 0x100 == 255 }

  function AddressAt(start: u32, pos: nat): u32 { (start + pos) % 0x1_0000_0000 }

  const EINVAL := 22

  /** With more addresses than this, the size of the bitmap is computed modulo 2^32 and too small. */
  const LARGEST: u32 := 0xFFFF_FFF8

  const INADDR_NONE: u32 := 0xFFFF_FFFF

  class AddressPool {
    var start: u32
    var size: u32
    var bitmap: array?<u8>
    var hint: u32

    ghost predicate Valid()
      reads this, bitmap
    {
      bitmap != null ==> 0 < size <= LARGEST && bitmap.Length == (size + 7) / 8 && hint < size
    }

    ghost function View(): Pool
      requires Valid() && bitmap != null
      reads this, bitmap
    {
      Pool(Unpacked(bitmap[..], size), hint)
    }

    constructor ()
      ensures Valid() && bitmap == null
    {
      start, size, bitmap, hint := 0, 0, null, 0;
    }

    /** vf_ip_pool_init: exactly the reserved addresses start out marked. */
    method Init(cidr: u32, n: u32) returns (rc: int)
      requires n <= LARGEST
      modifies this
      ensures rc == (if n == 0 || cidr == INADDR_NONE then -EINVAL else 0)
      ensures rc == 0 ==> Valid() && bitmap != null && fresh(bitmap) && start == cidr && size == n
      ensures rc == 0 ==>
        View().hint == 0 && forall i :: 0 <= i < n ==> View().marked[i] == Reserved(AddressAt(cidr, i))
    {
      if n == 0 { return -EINVAL; }
      start, size, hint, bitmap := cidr, 0, 0, null;
      if cidr == INADDR_NONE { return -EINVAL; }
      size := n;
      var bits := new u8[(n + 7) / 8](_ => 0);
      bitmap := bits;
      forall k: nat ensures !Has(0, k) { ZeroHas(k); }
      for i := 0 to n
        invariant Valid() && bitmap == bits && fresh(bits) && start == cidr && size == n && hint == 0
        invariant forall j :: 0 <= j < n ==> View().marked[j] == (j < i && Reserved(AddressAt(cidr, j)))
      {
        if Reserved(AddressAt(cidr, i)) {
          Write(i, true);
        }
      }
      return 0;
    }

    method Write(pos: u32, v: bool)
      requires Valid() && bitmap != null && pos < size
      modifies bitmap
      ensures Valid() && View() == old(View()).(marked := old(View()).marked[pos := v])
    {
      ChangeBit(bitmap[..], size, pos, v);
      bitmap[pos / 8] := PutByte(bitmap[pos / 8], pos % 8, v);
      assert bitmap[..] == old(bitmap[..])[pos / 8 := PutByte(old(bitmap[..])[pos / 8], pos % 8, v)];
    }

    /** The loop of vf_ip_pool_alloc. */
    method Scan() returns (pick: Option<nat>)
      requires Valid() && bitmap != null
      ensures pick == Search(View(), 0)
    {
      SearchEnd(View());
      hide Search, ProbeAt;
      for i := 0 to size
        invariant Search(View(), 0) == Search(View(), i)
      {
        SearchStep(View(), i);
        var pos := ProbeAt(hint, i, size);
        if !Has(bitmap[pos / 8], pos % 8) { return Some(pos); }
      }
      pick := None;
    }

    /** Marks a position, and moves the hint behind it. */
    method Mark(pos: nat)
      requires Valid() && bitmap != null && pos < size
      modifies this`hint, bitmap
      ensures Valid() && View() == Taken(old(View()), Some(pos))
    {
      Write(pos, true);
      hint := Next(pos, size);
    }

    /**
     * vf_ip_pool_alloc: takes the first free position in the order of its search, which for pools of at most
     * 2^31 addresses is the cyclic order from the hint.
     */
    method Allocate() returns (ip: u32)
      requires Valid()
      modifies this, bitmap
      ensures Valid() && bitmap == old(bitmap) && start == old(start) && size == old(size)
      ensures bitmap == null ==> ip == 0
      ensures bitmap != null ==>
        Valid() && View() == Taken(old(View()), Search(old(View()), 0)) &&
        ip == match Search(old(View()), 0) case None => 0 case Some(pos) => AddressAt(start, pos)
      ensures bitmap != null && size <= 0x8000_0000 ==> Search(old(View()), 0) == Pick(old(View()), 0)
    {
      if bitmap == null { return 0; }
      if size <= 0x8000_0000 { SearchIsPick(View(), 0); }
      hide Search, Pick;
      var pick := Scan();
      if pick.None? { return 0; }
      Mark(pick.value);
      ip := AddressAt(start, pick.value);
    }

    /** vf_ip_pool_free. The upper bound of the range is a 32-bit sum. */
    method Release(ip: u32)
      requires Valid()
      modifies bitmap
      ensures Valid()
      ensures bitmap != null ==>
        View() == if ip != 0 && start <= ip < (start + size) % 0x1_0000_0000
                  then Step(old(View()), Free(ip - start)) else old(View())
    {
      if bitmap == null || ip == 0 { return; }
      if ip < start || ip >= (start + size) % 0x1_0000_0000 { return; }
      var pos := ip - start;
      Write(pos, false);
    }
  }

  /**
   * A pool takes back its own addresses exactly if its range ends below 2^32; a range that reaches the end
   * of the word range takes back none at all.
   */
  lemma ReleaseRange(start: u32, size: u32, pos: nat)
    requires 0 < size && pos < size && AddressAt(start, pos) != 0
    ensures start <= AddressAt(start, pos) < (start + size) % 0x1_0000_0000 && AddressAt(start, pos) - start == pos
            <==> start + size < 0x1_0000_0000
  {
  }
}
