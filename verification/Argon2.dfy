/**
 * Block indexing of Argon2 in 32-bit arithmetic, and the memory filling it drives. Mixing two blocks and
 * the pseudo-random index seeds are parameters. The work area is seen as lanes of laneSize blocks; block
 * ref of a lane is block lane * laneSize + ref of the source's array.
 */
module Argon2 {
  import opened Words
  import opened NatLemmas

  datatype Config = Config(nbLanes: u32, nbBlocks: u32) {
    /** At least eight blocks per lane. */
    predicate Valid() { 1 <= nbLanes && 8 * nbLanes <= nbBlocks }

    function SegmentSize(): int
      requires Valid()
    {
      nbBlocks / nbLanes / 4
    }

    function LaneSize(): int
      requires Valid()
    {
      SegmentSize() * 4
    }
  }

  lemma Sizes(c: Config)
    requires c.Valid()
    ensures c.SegmentSize() >= 2
    ensures c.LaneSize() * c.nbLanes <= c.nbBlocks
    ensures c.LaneSize() < W
  {
    var q := c.nbBlocks / c.nbLanes;
    assert c.nbBlocks == c.nbLanes * q + c.nbBlocks % c.nbLanes;
    QuotientAtLeast(c.nbBlocks, c.nbLanes, q, 8);
    MulMono(c.LaneSize(), c.nbLanes, q, c.nbLanes);
    MulMono(1, q, c.nbLanes, q);
  }

  lemma QuotientAtLeast(x: int, d: int, q: int, k: int)
    requires 0 < d && k * d <= x && x < d * q + d
    ensures q >= k
  {
    if q < k {
      MulSub(d, k, q);
      MulMono(d, 1, d, k - q);
    }
  }

  /** Where the filling stands: block `block` of segment (slice, lane) in pass `pass`. */
  datatype Place = Place(pass: u32, slice: nat, lane: nat, block: nat) {
    predicate Valid(c: Config)
      requires c.Valid()
    {
      slice < 4 && lane < c.nbLanes && block < c.SegmentSize() && (pass == 0 && slice == 0 ==> block >= 2)
    }

    /** The position of the block in its lane. */
    function Pos(c: Config): int
      requires c.Valid()
    {
      slice * c.SegmentSize() + block
    }

    /** The position of the block before it, cyclically. */
    function Previous(c: Config): int
      requires c.Valid()
    {
      if block == 0 && slice == 0 then c.LaneSize() - 1 else Pos(c) - 1
    }
  }

  /** The lane the reference block is taken from. */
  function RefLane(c: Config, p: Place, seed: u64): (l: nat)
    requires c.Valid() && p.Valid(c)
    ensures l < c.nbLanes
  {
    if p.pass == 0 && p.slice == 0 then p.lane else seed / W % c.nbLanes
  }

  /** window_size, in unsigned 32-bit arithmetic that may wrap on the way. */
  function WindowSize(c: Config, p: Place, lane: nat): u32
    requires c.Valid()
  {
    var nbSegments := if p.pass == 0 then p.slice else 3;
    (nbSegments * c.SegmentSize()
      + (if lane == p.lane then (p.block + W - 1) % W else if p.block == 0 then W - 1 else 0)) % W
  }

  /** The position of the reference block in its lane. */
  function RefPos(c: Config, p: Place, seed: u64): int
    requires c.Valid() && p.Valid(c)
  {
    Sizes(c);
    var windowStart := if p.pass == 0 then 0 else (p.slice + 1) % 4 * c.SegmentSize();
    var windowSize := WindowSize(c, p, RefLane(c, p, seed));
    var j1 := seed % W;
    var x := j1 * j1 / W;
    var y := windowSize * x / W;
    (windowStart + ((windowSize - 1) - y)) % c.LaneSize()
  }

  /** The window never wraps in the end: it holds at least one block and less than a lane. */
  lemma WindowValue(c: Config, p: Place, lane: nat)
    requires c.Valid() && p.Valid(c) && (p.pass == 0 && p.slice == 0 ==> lane == p.lane)
    ensures var n := if p.pass == 0 then p.slice else 3;
            WindowSize(c, p, lane) == n * c.SegmentSize()
              + (if lane == p.lane then p.block - 1 else if p.block == 0 then -1 else 0)
    ensures 1 <= WindowSize(c, p, lane) < c.LaneSize()
  {
    Sizes(c);
    var n := if p.pass == 0 then p.slice else 3;
    MulMono(n, c.SegmentSize(), 3, c.SegmentSize());
    if n > 0 { MulMono(1, c.SegmentSize(), n, c.SegmentSize()); }
    WindowAlg(n * c.SegmentSize(), c.SegmentSize(), p.block, lane == p.lane);
  }

  lemma WindowAlg(ns: int, seg: int, block: int, same: bool)
    requires 2 <= seg && 4 * seg < W && 0 <= block < seg && 0 <= ns <= 3 * seg && (ns == 0 || seg <= ns)
    requires ns == 0 ==> same && block >= 2
    ensures var sum := ns + (if same then (block + W - 1) % W else if block == 0 then W - 1 else 0);
            var size := ns + (if same then block - 1 else if block == 0 then -1 else 0);
            sum % W == size && 1 <= size < 4 * seg
  {
  }

  /** Scaling a 32-bit fraction into the window stays inside it. */
  lemma InWindow(w: int, seed: u64)
    requires 1 <= w < W
    ensures var j1 := seed % W; var x := j1 * j1 / W; 0 <= w * x / W <= w - 1
  {
    var j1 := seed % W;
    MulMono(j1, j1, W - 1, W - 1);
    var x := j1 * j1 / W;
    assert 0 <= x <= W - 1;
    MulMono(w, x, w, W - 1);
    assert w * (W - 1) == w * W - w;
    ScaleDown(w * x, w);
  }

  lemma ScaleDown(v: int, w: int)
    requires 0 <= v <= w * W - w && 1 <= w
    ensures 0 <= v / W <= w - 1
  {
  }

  /** What the reference block may be, in terms of its own position and lane. */
  predicate Referable(c: Config, p: Place, lane: nat, ref: int)
    requires c.Valid()
  {
    var seg := c.SegmentSize();
    0 <= ref < c.LaneSize() &&
    // in another lane never from the slice being filled; in the own lane only blocks before the previous one
    (p.slice * seg <= ref < p.slice * seg + seg ==> lane == p.lane && ref + 1 < p.Pos(c)) &&
    // in the first pass only blocks that exist already
    (p.pass == 0 ==> if lane == p.lane then ref < p.Pos(c) else ref < p.slice * seg)
  }

  /** How far the reference block lies from the start of its window. */
  lemma Offset(c: Config, p: Place, seed: u64) returns (z: int)
    requires c.Valid() && p.Valid(c)
    ensures 0 <= z < WindowSize(c, p, RefLane(c, p, seed))
    ensures RefPos(c, p, seed)
         == ((if p.pass == 0 then 0 else (p.slice + 1) % 4 * c.SegmentSize()) + z) % (c.SegmentSize() * 4)
  {
    Sizes(c);
    var w := WindowSize(c, p, RefLane(c, p, seed));
    WindowValue(c, p, RefLane(c, p, seed));
    InWindow(w, seed);
    z := w - 1 - w * (seed % W * (seed % W) / W) / W;
  }

  /** Every reference block may be read at this point, whatever the seed. */
  lemma ReferenceOk(c: Config, p: Place, seed: u64)
    requires c.Valid() && p.Valid(c)
    ensures Referable(c, p, RefLane(c, p, seed), RefPos(c, p, seed))
  {
    hide RefPos, WindowSize;
    Sizes(c);
    var lane := RefLane(c, p, seed);
    WindowValue(c, p, lane);
    var z := Offset(c, p, seed);
    if p.pass == 0 {
      FirstPass(c.SegmentSize(), p.slice, p.block, lane == p.lane, z, RefPos(c, p, seed));
    } else {
      LaterPass(c.SegmentSize(), p.slice, p.block, lane == p.lane, z, RefPos(c, p, seed));
    }
  }

  lemma FirstPass(seg: int, slice: int, block: int, same: bool, z: int, ref: int)
    requires 2 <= seg && 0 <= slice < 4 && 0 <= block < seg && (slice == 0 ==> same && block >= 2)
    requires 0 <= z < slice * seg + (if same then block - 1 else if block == 0 then -1 else 0)
    requires ref == z % (seg * 4)
    ensures 0 <= ref < 4 * seg
    ensures if same then ref + 1 < slice * seg + block else ref < slice * seg
  {
    assert slice * seg <= 3 * seg;
    DivModUnique(z, seg * 4, 0, z);
  }

  lemma LaterPass(seg: int, slice: int, block: int, same: bool, z: int, ref: int)
    requires 2 <= seg && 0 <= slice < 4 && 0 <= block < seg
    requires 0 <= z < 3 * seg + (if same then block - 1 else if block == 0 then -1 else 0)
    requires ref == ((slice + 1) % 4 * seg + z) % (seg * 4)
    ensures 0 <= ref < 4 * seg
    ensures slice * seg <= ref < slice * seg + seg ==> same && ref + 1 < slice * seg + block
  {
    var start := (slice + 1) % 4 * seg;
    if start + z < seg * 4 {
      DivModUnique(start + z, seg * 4, 0, start + z);
    } else {
      DivModUnique(start + z, seg * 4, 1, start + z - seg * 4);
    }
    if
    case slice == 0 => assert start == seg;
    case slice == 1 => assert start == 2 * seg;
    case slice == 2 => assert start == 3 * seg;
    case slice == 3 => assert start == 0;
  }

  /**
   * What the filling takes as given: where the reference block of a place is for a seed, the seed in a
   * block, the data-independent seed of a place, the slices that use it, and the two ways
   * of making a block from its predecessor and its reference.
   */
  datatype Mixer<!T> = Mixer(reference: (Place, u64) -> (nat, int), constantTime: (u32, nat) -> bool, seedIn: T -> u64,
                             seedAt: Place -> u64, mix: (T, T) -> T, remix: (T, T, T) -> T)

  /** Reference blocks are taken only from where the filling allows it. */
  ghost predicate Sound<T>(c: Config, m: Mixer<T>)
    requires c.Valid()
  {
    forall p: Place, seed: u64 :: p.Valid(c) ==> SoundAt(c, m, p, seed)
  }

  predicate SoundAt<T>(c: Config, m: Mixer<T>, p: Place, seed: u64)
    requires c.Valid()
  {
    var r := m.reference(p, seed);
    r.0 < c.nbLanes && Referable(c, p, r.0, r.1)
  }

  type Memory<T> = seq<seq<T>>

  ghost predicate Shaped<T>(c: Config, mem: Memory<T>)
    requires c.Valid()
  {
    |mem| == c.nbLanes && forall l :: 0 <= l < |mem| ==> |mem[l]| == c.LaneSize()
  }

  lemma PositionBounds(c: Config, p: Place)
    requires c.Valid() && p.Valid(c)
    ensures 0 <= p.slice * c.SegmentSize() <= p.Pos(c) < p.slice * c.SegmentSize() + c.SegmentSize() <= c.LaneSize()
    ensures 0 <= p.Previous(c) < c.LaneSize() && p.Previous(c) != p.Pos(c)
  {
    Sizes(c);
    MulMono(p.slice, c.SegmentSize(), 3, c.SegmentSize());
    if p.slice > 0 { MulMono(1, c.SegmentSize(), p.slice, c.SegmentSize()); }
  }

  function Seed<T>(c: Config, m: Mixer<T>, mem: Memory<T>, p: Place): u64
    requires c.Valid() && p.Valid(c) && Shaped(c, mem)
  {
    PositionBounds(c, p);
    if m.constantTime(p.pass, p.slice) then m.seedAt(p) else m.seedIn(mem[p.lane][p.Previous(c)])
  }

  /** The block computed at place p. */
  function NewBlock<T>(c: Config, m: Mixer<T>, mem: Memory<T>, p: Place): T
    requires c.Valid() && p.Valid(c) && Shaped(c, mem) && Sound(c, m)
  {
    PositionBounds(c, p);
    var r := m.reference(p, Seed(c, m, mem, p));
    assert SoundAt(c, m, p, Seed(c, m, mem, p));
    var previous, reference := mem[p.lane][p.Previous(c)], mem[r.0][r.1];
    if p.pass == 0 then m.mix(previous, reference) else m.remix(previous, reference, mem[p.lane][p.Pos(c)])
  }

  /** One iteration of the innermost loop. */
  function FillBlock<T>(c: Config, m: Mixer<T>, mem: Memory<T>, p: Place): (r: Memory<T>)
    requires c.Valid() && p.Valid(c) && Shaped(c, mem) && Sound(c, m)
    ensures Shaped(c, r)
  {
    PositionBounds(c, p);
    mem[p.lane := mem[p.lane][p.Pos(c) := NewBlock(c, m, mem, p)]]
  }

  /** The innermost loop: a segment from p.block on. */
  ghost function FillSegment<T>(c: Config, m: Mixer<T>, mem: Memory<T>, p: Place): (r: Memory<T>)
    requires c.Valid() && Shaped(c, mem) && Sound(c, m) && Enterable(c, p)
    ensures Shaped(c, r)
    decreases c.SegmentSize() - p.block
  {
    if p.block == c.SegmentSize() then mem
    else FillSegment(c, m, FillBlock(c, m, mem, p), p.(block := p.block + 1))
  }

  /** A place in a segment, or just behind its end. */
  predicate Enterable(c: Config, p: Place)
    requires c.Valid()
  {
    p.slice < 4 && p.lane < c.nbLanes && p.block <= c.SegmentSize() && (p.pass == 0 && p.slice == 0 ==> p.block >= 2)
  }

  predicate InSlice(c: Config, slice: nat, ref: int)
    requires c.Valid()
  {
    slice * c.SegmentSize() <= ref < slice * c.SegmentSize() + c.SegmentSize()
  }

  /** The blocks a segment can see: all but other lanes' current slice. */
  predicate Seen(c: Config, slice: nat, lane: nat, l: int, ref: int)
    requires c.Valid()
  {
    0 <= l < c.nbLanes && 0 <= ref < c.LaneSize() && (l == lane || !InSlice(c, slice, ref))
  }

  /** Two memories that a segment cannot tell apart. */
  ghost predicate Alike<T>(c: Config, slice: nat, lane: nat, a: Memory<T>, b: Memory<T>)
    requires c.Valid() && Shaped(c, a) && Shaped(c, b)
  {
    forall l, ref :: Seen(c, slice, lane, l, ref) ==> a[l][ref] == b[l][ref]
  }

  /** A block depends only on what its lane may see. */
  lemma SameBlock<T>(c: Config, m: Mixer<T>, a: Memory<T>, b: Memory<T>, p: Place)
    requires c.Valid() && p.Valid(c) && Shaped(c, a) && Shaped(c, b) && Sound(c, m)
    requires Alike(c, p.slice, p.lane, a, b)
    ensures NewBlock(c, m, a, p) == NewBlock(c, m, b, p)
  {
    PositionBounds(c, p);
    assert Seen(c, p.slice, p.lane, p.lane, p.Previous(c)) && Seen(c, p.slice, p.lane, p.lane, p.Pos(c));
    var seed := Seed(c, m, a, p);
    assert seed == Seed(c, m, b, p);
    assert SoundAt(c, m, p, seed);
    var r := m.reference(p, seed);
    assert Seen(c, p.slice, p.lane, r.0, r.1);
  }

  /** Filling a block changes that block only. */
  lemma FillBlockFrame<T>(c: Config, m: Mixer<T>, mem: Memory<T>, p: Place, l: nat, ref: int)
    requires c.Valid() && p.Valid(c) && Shaped(c, mem) && Sound(c, m) && l < c.nbLanes && 0 <= ref < c.LaneSize()
    ensures FillBlock(c, m, mem, p)[l][ref]
         == if l == p.lane && ref == p.Pos(c) then NewBlock(c, m, mem, p) else mem[l][ref]
  {
    PositionBounds(c, p);
  }

  lemma FillBlockAlike<T>(c: Config, m: Mixer<T>, a: Memory<T>, b: Memory<T>, p: Place)
    requires c.Valid() && p.Valid(c) && Shaped(c, a) && Shaped(c, b) && Sound(c, m)
    requires Alike(c, p.slice, p.lane, a, b)
    ensures Alike(c, p.slice, p.lane, FillBlock(c, m, a, p), FillBlock(c, m, b, p))
  {
    SameBlock(c, m, a, b, p);
    var a', b' := FillBlock(c, m, a, p), FillBlock(c, m, b, p);
    forall l, ref | Seen(c, p.slice, p.lane, l, ref)
      ensures a'[l][ref] == b'[l][ref]
    {
      FillBlockFrame(c, m, a, p, l, ref);
      FillBlockFrame(c, m, b, p, l, ref);
    }
  }

  /** A segment is filled alike in memories it cannot tell apart. */
  lemma {:induction false} SegmentAlike<T>(c: Config, m: Mixer<T>, a: Memory<T>, b: Memory<T>, p: Place)
    requires c.Valid() && Shaped(c, a) && Shaped(c, b) && Sound(c, m) && Enterable(c, p)
    requires Alike(c, p.slice, p.lane, a, b)
    ensures Alike(c, p.slice, p.lane, FillSegment(c, m, a, p), FillSegment(c, m, b, p))
    decreases c.SegmentSize() - p.block
  {
    if p.block < c.SegmentSize() {
      FillBlockAlike(c, m, a, b, p);
      SegmentAlike(c, m, FillBlock(c, m, a, p), FillBlock(c, m, b, p), p.(block := p.block + 1));
    }
  }

  /** A segment writes only its own slice of its own lane. */
  lemma {:induction false} SegmentFrame<T>(c: Config, m: Mixer<T>, mem: Memory<T>, p: Place, l: nat, ref: int)
    requires c.Valid() && Shaped(c, mem) && Sound(c, m) && Enterable(c, p) && l < c.nbLanes && 0 <= ref < c.LaneSize()
    requires l != p.lane || !InSlice(c, p.slice, ref)
    ensures FillSegment(c, m, mem, p)[l][ref] == mem[l][ref]
    decreases c.SegmentSize() - p.block
  {
    if p.block < c.SegmentSize() {
      PositionBounds(c, p);
      FillBlockFrame(c, m, mem, p, l, ref);
      SegmentFrame(c, m, FillBlock(c, m, mem, p), p.(block := p.block + 1), l, ref);
    }
  }

  /** The first block of the segment of a lane. */
  function Start(pass: u32, slice: nat, lane: nat): Place
  {
    Place(pass, slice, lane, if pass == 0 && slice == 0 then 2 else 0)
  }

  /** The loop over the lanes of a slice, in the given order. */
  ghost function RunSlice<T>(c: Config, m: Mixer<T>, mem: Memory<T>, pass: u32, slice: nat,
                             order: seq<nat>): (r: Memory<T>)
    requires c.Valid() && Shaped(c, mem) && Sound(c, m) && slice < 4 && c.SegmentSize() >= 2
    requires forall i :: 0 <= i < |order| ==> order[i] < c.nbLanes
    ensures Shaped(c, r)
    decreases |order|
  {
    if order == [] then mem
    else RunSlice(c, m, FillSegment(c, m, mem, Start(pass, slice, order[0])), pass, slice, order[1..])
  }

  /** Each block a slice leaves behind is the one its lane alone would have produced from the memory before. */
  lemma {:induction false} SliceResult<T>(c: Config, m: Mixer<T>, mem: Memory<T>, pass: u32, slice: nat,
                                          order: seq<nat>, l: nat, ref: int)
    requires c.Valid() && Shaped(c, mem) && Sound(c, m) && slice < 4 && c.SegmentSize() >= 2
    requires forall i :: 0 <= i < |order| ==> order[i] < c.nbLanes
    requires forall i, j :: 0 <= i < j < |order| ==> order[i] != order[j]
    requires l < c.nbLanes && 0 <= ref < c.LaneSize()
    ensures RunSlice(c, m, mem, pass, slice, order)[l][ref]
         == if l in order && InSlice(c, slice, ref) then FillSegment(c, m, mem, Start(pass, slice, l))[l][ref]
            else mem[l][ref]
    decreases |order|
  {
    if order != [] {
      var next := FillSegment(c, m, mem, Start(pass, slice, order[0]));
      SliceResult(c, m, next, pass, slice, order[1..], l, ref);
      if l != order[0] {
        SegmentFrame(c, m, mem, Start(pass, slice, order[0]), l, ref);
        if l in order && InSlice(c, slice, ref) {
          OtherLaneAlike(c, m, mem, pass, slice, order[0], l);
          SegmentAlike(c, m, mem, next, Start(pass, slice, l));
          assert Seen(c, slice, l, l, ref);
        }
      } else if !InSlice(c, slice, ref) {
        SegmentFrame(c, m, mem, Start(pass, slice, order[0]), l, ref);
      }
    }
  }

  lemma OtherLaneAlike<T>(c: Config, m: Mixer<T>, mem: Memory<T>, pass: u32, slice: nat, first: nat, l: nat)
    requires c.Valid() && Shaped(c, mem) && Sound(c, m) && slice < 4 && c.SegmentSize() >= 2
    requires first < c.nbLanes && l < c.nbLanes && l != first
    ensures Alike(c, slice, l, mem, FillSegment(c, m, mem, Start(pass, slice, first)))
  {
    hide FillSegment, Sound;
    var next := FillSegment(c, m, mem, Start(pass, slice, first));
    forall k, ref | Seen(c, slice, l, k, ref)
      ensures mem[k][ref] == next[k][ref]
    {
      SegmentFrame(c, m, mem, Start(pass, slice, first), k, ref);
    }
  }

  /** The lanes of a slice may run in any order. */
  lemma LanesCommute<T>(c: Config, m: Mixer<T>, mem: Memory<T>, pass: u32, slice: nat, order: seq<nat>,
                        order': seq<nat>)
    requires c.Valid() && Shaped(c, mem) && Sound(c, m) && slice < 4 && c.SegmentSize() >= 2
    requires forall i :: 0 <= i < |order| ==> order[i] < c.nbLanes
    requires forall i :: 0 <= i < |order'| ==> order'[i] < c.nbLanes
    requires forall i, j :: 0 <= i < j < |order| ==> order[i] != order[j]
    requires forall i, j :: 0 <= i < j < |order'| ==> order'[i] != order'[j]
    requires forall l :: l in order <==> l in order'
    ensures RunSlice(c, m, mem, pass, slice, order) == RunSlice(c, m, mem, pass, slice, order')
  {
    var a, b := RunSlice(c, m, mem, pass, slice, order), RunSlice(c, m, mem, pass, slice, order');
    forall l | 0 <= l < c.nbLanes ensures a[l] == b[l] {
      forall ref | 0 <= ref < c.LaneSize() ensures a[l][ref] == b[l][ref] {
        SliceResult(c, m, mem, pass, slice, order, l, ref);
        SliceResult(c, m, mem, pass, slice, order', l, ref);
      }
    }
  }

  function LanesFrom(lane: nat, n: nat): seq<nat>
    requires lane <= n
  {
    seq(n - lane, i requires 0 <= i => lane + i)
  }

  /** The two inner loops of the source for one slice. */
  method FillSlice<T>(c: Config, m: Mixer<T>, mem: Memory<T>, pass: u32, slice: nat) returns (r: Memory<T>)
    requires c.Valid() && Shaped(c, mem) && Sound(c, m) && slice < 4
    ensures c.SegmentSize() >= 2 && Shaped(c, r)
    ensures r == RunSlice(c, m, mem, pass, slice, LanesFrom(0, c.nbLanes))
  {
    Sizes(c);
    r := mem;
    for lane := 0 to c.nbLanes
      invariant Shaped(c, r)
      invariant RunSlice(c, m, r, pass, slice, LanesFrom(lane, c.nbLanes))
             == RunSlice(c, m, mem, pass, slice, LanesFrom(0, c.nbLanes))
    {
      r := SegmentLoop(c, m, r, pass, slice, lane);
      assert LanesFrom(lane, c.nbLanes)[1..] == LanesFrom(lane + 1, c.nbLanes);
    }
  }

  method SegmentLoop<T>(c: Config, m: Mixer<T>, mem: Memory<T>, pass: u32, slice: nat, lane: nat) returns (r: Memory<T>)
    requires c.Valid() && Shaped(c, mem) && Sound(c, m) && slice < 4 && lane < c.nbLanes && c.SegmentSize() >= 2
    ensures Shaped(c, r) && r == FillSegment(c, m, mem, Start(pass, slice, lane))
  {
    r := mem;
    var passOffset := if pass == 0 && slice == 0 then 2 else 0;
    for block := passOffset to c.SegmentSize()
      invariant Shaped(c, r)
      invariant FillSegment(c, m, r, Place(pass, slice, lane, block))
        == FillSegment(c, m, mem, Start(pass, slice, lane))
    {
      r := FillBlock(c, m, r, Place(pass, slice, lane, block));
    }
  }

  datatype Algorithm = Argon2d | Argon2i | Argon2id

  /** Argon2id leaves constant-time indexing for good in the third slice of the first pass. */
  predicate ConstantTime(alg: Algorithm, pass: u32, slice: nat)
  {
    alg.Argon2i? || (alg.Argon2id? && pass == 0 && slice < 2)
  }

  /** The source's own choice of reference blocks, used with any way of mixing. */
  function WithIndexing<T>(c: Config, alg: Algorithm, m: Mixer<T>): Mixer<T>
    requires c.Valid()
  {
    m.(reference := (p: Place, seed: u64) =>
         if p.Valid(c) then (RefLane(c, p, seed), RefPos(c, p, seed)) else (0, 0),
       constantTime := (pass: u32, slice: nat) => ConstantTime(alg, pass, slice))
  }

  /** It is sound. */
  lemma IndexingIsSound<T>(c: Config, alg: Algorithm, m: Mixer<T>)
    requires c.Valid()
    ensures Sound(c, WithIndexing(c, alg, m))
  {
    forall p: Place, seed: u64 | p.Valid(c) ensures SoundAt(c, WithIndexing(c, alg, m), p, seed) {
      ReferenceOk(c, p, seed);
    }
  }

  /** Lane and position give each block of the work area its own index, inside the area. */
  lemma LinearIndex(c: Config, lane: nat, ref: int, lane': nat, ref': int)
    requires c.Valid() && lane < c.nbLanes && lane' < c.nbLanes
    requires 0 <= ref < c.LaneSize() && 0 <= ref' < c.LaneSize()
    ensures 0 <= lane * c.LaneSize() + ref < c.nbBlocks
    ensures lane * c.LaneSize() + ref == lane' * c.LaneSize() + ref' ==> lane == lane' && ref == ref'
  {
    Sizes(c);
    IndexBound(lane, ref, c.LaneSize(), c.nbLanes, c.nbBlocks);
    IndexSplit(lane, ref, c.LaneSize());
    IndexSplit(lane', ref', c.LaneSize());
  }

  lemma IndexBound(lane: int, ref: int, size: int, lanes: int, blocks: int)
    requires 0 <= lane < lanes && 0 <= ref < size && size * lanes <= blocks
    ensures 0 <= lane * size + ref < blocks
  {
    MulMono(lane + 1, size, lanes, size);
    MulMono(0, size, lane, size);
  }

  lemma IndexSplit(lane: int, ref: int, size: int)
    requires 0 <= ref < size
    ensures (lane * size + ref) / size == lane && (lane * size + ref) % size == ref
  {
    DivModUnique(lane * size + ref, size, lane, ref);
  }
}
