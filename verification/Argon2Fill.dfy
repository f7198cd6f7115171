/**
 * The whole filling of Argon2's memory, all slices of all passes: it comes out the same whatever order the
 * lanes of each slice run in, and whatever the work area held before.
 */
module Argon2Fill {
  import opened Words
  import opened Argon2

  /** Every lane once. */
  ghost predicate Complete(c: Config, order: seq<nat>)
  {
    (forall i :: 0 <= i < |order| ==> order[i] < c.nbLanes) &&
    (forall i, j :: 0 <= i < j < |order| ==> order[i] != order[j]) &&
    (forall l :: 0 <= l < c.nbLanes ==> l in order)
  }

  ghost predicate AllComplete(c: Config, orders: seq<seq<nat>>)
  {
    forall k :: 0 <= k < |orders| ==> Complete(c, orders[k])
  }

  /** One slice, by its number counted over all passes. */
  ghost function Slice<T>(c: Config, m: Mixer<T>, mem: Memory<T>, step: nat, order: seq<nat>): (r: Memory<T>)
    requires c.Valid() && Shaped(c, mem) && Sound(c, m) && step < 4 * W && Complete(c, order)
    ensures Shaped(c, r)
  {
    Sizes(c);
    RunSlice(c, m, mem, step / 4, step % 4, order)
  }

  /** The two outer loops from slice number step on, with an order of lanes for each slice. */
  ghost function Run<T>(c: Config, m: Mixer<T>, mem: Memory<T>, step: nat, orders: seq<seq<nat>>): (r: Memory<T>)
    requires c.Valid() && Shaped(c, mem) && Sound(c, m) && step + |orders| <= 4 * W && AllComplete(c, orders)
    ensures Shaped(c, r)
    decreases |orders|
  {
    if orders == [] then mem else Run(c, m, Slice(c, m, mem, step, orders[0]), step + 1, orders[1..])
  }

  lemma SliceCommutes<T>(c: Config, m: Mixer<T>, mem: Memory<T>, step: nat, order: seq<nat>, order': seq<nat>)
    requires c.Valid() && Shaped(c, mem) && Sound(c, m) && step < 4 * W && Complete(c, order) && Complete(c, order')
    ensures Slice(c, m, mem, step, order) == Slice(c, m, mem, step, order')
  {
    hide RunSlice, Sound;
    Sizes(c);
    LanesCommute(c, m, mem, step / 4, step % 4, order, order');
  }

  /** The order of lanes matters in no slice. */
  lemma {:induction false} RunCommutes<T>(c: Config, m: Mixer<T>, mem: Memory<T>, step: nat,
                                          orders: seq<seq<nat>>, orders': seq<seq<nat>>)
    requires c.Valid() && Shaped(c, mem) && Sound(c, m) && step + |orders| <= 4 * W && |orders| == |orders'|
    requires AllComplete(c, orders) && AllComplete(c, orders')
    ensures Run(c, m, mem, step, orders) == Run(c, m, mem, step, orders')
    decreases |orders|
  {
    if orders != [] {
      hide Slice;
      SliceCommutes(c, m, mem, step, orders[0], orders'[0]);
      RunCommutes(c, m, Slice(c, m, mem, step, orders[0]), step + 1, orders[1..], orders'[1..]);
    }
  }

  predicate Known(c: Config, upto: seq<int>, l: int, ref: int)
    requires c.Valid()
  {
    0 <= l < c.nbLanes && l < |upto| && 0 <= ref < c.LaneSize() && ref < upto[l]
  }

  /** Two memories agree in each lane up to that lane's bound. */
  ghost predicate Agree<T>(c: Config, a: Memory<T>, b: Memory<T>, upto: seq<int>)
    requires c.Valid() && Shaped(c, a) && Shaped(c, b)
  {
    |upto| == c.nbLanes &&
    forall l, ref :: Known(c, upto, l, ref) ==> a[l][ref] == b[l][ref]
  }

  /** All lanes are filled up to the slice. */
  ghost predicate Reached(c: Config, slice: nat, upto: seq<int>)
    requires c.Valid()
  {
    forall l :: 0 <= l < |upto| ==> slice * c.SegmentSize() <= upto[l]
  }

  /** In the first pass a block is made from blocks that were made before. */
  lemma SameFirst<T>(c: Config, m: Mixer<T>, a: Memory<T>, b: Memory<T>, p: Place, upto: seq<int>)
    requires c.Valid() && p.Valid(c) && Shaped(c, a) && Shaped(c, b) && Sound(c, m)
    requires p.pass == 0 && Agree(c, a, b, upto) && upto[p.lane] == p.Pos(c) && Reached(c, p.slice, upto)
    ensures NewBlock(c, m, a, p) == NewBlock(c, m, b, p)
  {
    PositionBounds(c, p);
    assert p.Previous(c) == p.Pos(c) - 1;
    assert Known(c, upto, p.lane, p.Previous(c));
    var seed := Seed(c, m, a, p);
    assert seed == Seed(c, m, b, p);
    assert SoundAt(c, m, p, seed);
    var r := m.reference(p, seed);
    assert Known(c, upto, r.0, r.1);
  }

  lemma FirstBlock<T>(c: Config, m: Mixer<T>, a: Memory<T>, b: Memory<T>, p: Place, upto: seq<int>)
    requires c.Valid() && p.Valid(c) && Shaped(c, a) && Shaped(c, b) && Sound(c, m)
    requires p.pass == 0 && Agree(c, a, b, upto) && upto[p.lane] == p.Pos(c) && Reached(c, p.slice, upto)
    ensures Agree(c, FillBlock(c, m, a, p), FillBlock(c, m, b, p), upto[p.lane := p.Pos(c) + 1])
  {
    hide NewBlock, FillBlock;
    SameFirst(c, m, a, b, p, upto);
    var a', b', upto' := FillBlock(c, m, a, p), FillBlock(c, m, b, p), upto[p.lane := p.Pos(c) + 1];
    forall l, ref | Known(c, upto', l, ref) ensures a'[l][ref] == b'[l][ref] {
      FillBlockFrame(c, m, a, p, l, ref);
      FillBlockFrame(c, m, b, p, l, ref);
      assert l != p.lane || ref != p.Pos(c) ==> Known(c, upto, l, ref);
    }
  }

  lemma {:induction false} FirstSegment<T>(c: Config, m: Mixer<T>, a: Memory<T>, b: Memory<T>, p: Place, upto: seq<int>)
    requires c.Valid() && Shaped(c, a) && Shaped(c, b) && Sound(c, m) && Enterable(c, p)
    requires p.pass == 0 && Agree(c, a, b, upto) && upto[p.lane] == p.Pos(c) && Reached(c, p.slice, upto)
    ensures Agree(c, FillSegment(c, m, a, p), FillSegment(c, m, b, p),
      upto[p.lane := p.(block := c.SegmentSize()).Pos(c)])
    decreases c.SegmentSize() - p.block
  {
    if p.block == c.SegmentSize() {
      assert upto[p.lane := p.Pos(c)] == upto;
    } else {
      hide Agree, FillBlock;
      FirstBlock(c, m, a, b, p, upto);
      var q, upto' := p.(block := p.block + 1), upto[p.lane := p.Pos(c) + 1];
      FirstSegment(c, m, FillBlock(c, m, a, p), FillBlock(c, m, b, p), q, upto');
      assert upto'[p.lane := p.(block := c.SegmentSize()).Pos(c)]
        == upto[p.lane := p.(block := c.SegmentSize()).Pos(c)];
    }
  }

  /** Where the lanes of a slice of the first pass start and end. */
  function FirstFrom(c: Config, slice: nat): int
    requires c.Valid()
  {
    Start(0, slice, 0).Pos(c)
  }

  function FirstTo(c: Config, slice: nat): int
    requires c.Valid()
  {
    slice * c.SegmentSize() + c.SegmentSize()
  }

  lemma {:induction false} FirstSlice<T>(c: Config, m: Mixer<T>, a: Memory<T>, b: Memory<T>, slice: nat,
                                         order: seq<nat>, upto: seq<int>) returns (r: seq<int>)
    requires c.Valid() && Shaped(c, a) && Shaped(c, b) && Sound(c, m) && slice < 4 && c.SegmentSize() >= 2
    requires forall i :: 0 <= i < |order| ==> order[i] < c.nbLanes
    requires forall i, j :: 0 <= i < j < |order| ==> order[i] != order[j]
    requires Agree(c, a, b, upto) && Reached(c, slice, upto)
    requires forall l :: l in order ==> upto[l] == FirstFrom(c, slice)
    ensures |r| == c.nbLanes
    ensures forall l :: 0 <= l < c.nbLanes ==> r[l] == if l in order then FirstTo(c, slice) else upto[l]
    ensures Agree(c, RunSlice(c, m, a, 0, slice, order), RunSlice(c, m, b, 0, slice, order), r)
    decreases |order|
  {
    if order == [] {
      r := upto;
    } else {
      hide Agree, FillSegment;
      var p := Start(0, slice, order[0]);
      FirstSegment(c, m, a, b, p, upto);
      var upto' := upto[order[0] := FirstTo(c, slice)];
      r := FirstSlice(c, m, FillSegment(c, m, a, p), FillSegment(c, m, b, p), slice, order[1..], upto');
    }
  }

  /** All lanes agree up to the slice that comes next. */
  ghost predicate Level<T>(c: Config, a: Memory<T>, b: Memory<T>, slice: nat)
    requires c.Valid() && Shaped(c, a) && Shaped(c, b)
  {
    Agree(c, a, b, seq(c.nbLanes, _ => FirstFrom(c, slice)))
  }

  lemma SliceLevel<T>(c: Config, m: Mixer<T>, a: Memory<T>, b: Memory<T>, slice: nat, order: seq<nat>)
    requires c.Valid() && Shaped(c, a) && Shaped(c, b) && Sound(c, m) && slice < 4 && Complete(c, order)
    requires Level(c, a, b, slice)
    ensures Level(c, Slice(c, m, a, slice, order), Slice(c, m, b, slice, order), slice + 1)
  {
    hide Agree, RunSlice;
    Sizes(c);
    var r := FirstSlice(c, m, a, b, slice, order, seq(c.nbLanes, _ => FirstFrom(c, slice)));
    assert r == seq(c.nbLanes, _ => FirstFrom(c, slice + 1));
  }

  lemma LevelAll<T>(c: Config, a: Memory<T>, b: Memory<T>)
    requires c.Valid() && Shaped(c, a) && Shaped(c, b) && Level(c, a, b, 4)
    ensures a == b
  {
    forall l | 0 <= l < c.nbLanes ensures a[l] == b[l] {
      forall ref | 0 <= ref < c.LaneSize() ensures a[l][ref] == b[l][ref] {
        assert Known(c, seq(c.nbLanes, _ => FirstFrom(c, 4)), l, ref);
      }
    }
  }

  /** From the end of the first pass on, nothing of the old contents is left. */
  lemma {:induction false} RunForgets<T>(c: Config, m: Mixer<T>, a: Memory<T>, b: Memory<T>, step: nat,
                                         orders: seq<seq<nat>>)
    requires c.Valid() && Shaped(c, a) && Shaped(c, b) && Sound(c, m) && AllComplete(c, orders)
    requires step <= 4 <= step + |orders| <= 4 * W && Level(c, a, b, step)
    ensures Run(c, m, a, step, orders) == Run(c, m, b, step, orders)
    decreases |orders|
  {
    if step == 4 {
      LevelAll(c, a, b);
    } else {
      hide Level, Slice;
      SliceLevel(c, m, a, b, step, orders[0]);
      RunForgets(c, m, Slice(c, m, a, step, orders[0]), Slice(c, m, b, step, orders[0]), step + 1, orders[1..]);
    }
  }

  /** The blocks that are there before filling starts. */
  ghost predicate SameStart<T>(c: Config, a: Memory<T>, b: Memory<T>)
    requires c.Valid() && Shaped(c, a) && Shaped(c, b)
  {
    forall l, ref {:trigger a[l][ref]} {:trigger b[l][ref]} ::
      0 <= l < c.nbLanes && 0 <= ref < c.LaneSize() && ref < 2 ==> a[l][ref] == b[l][ref]
  }

  /**
   * With the source's indexing, in any variant and for any number of passes, the memory at the end is
   * determined by the first two blocks of each lane: neither the rest of the work area nor the order in
   * which the lanes of each slice are filled has any influence.
   */
  lemma FillDetermined<T>(c: Config, alg: Algorithm, m: Mixer<T>, a: Memory<T>, b: Memory<T>,
                          orders: seq<seq<nat>>, orders': seq<seq<nat>>)
    requires c.Valid() && Shaped(c, a) && Shaped(c, b) && SameStart(c, a, b)
    requires AllComplete(c, orders) && AllComplete(c, orders') && 4 <= |orders| == |orders'| <= 4 * W
    ensures Sound(c, WithIndexing(c, alg, m))
    ensures Run(c, WithIndexing(c, alg, m), a, 0, orders) == Run(c, WithIndexing(c, alg, m), b, 0, orders')
  {
    hide Sound, WithIndexing, Run;
    IndexingIsSound(c, alg, m);
    RunForgets(c, WithIndexing(c, alg, m), a, b, 0, orders);
    RunCommutes(c, WithIndexing(c, alg, m), b, 0, orders, orders');
  }

  /** The lanes in their own order, n times. */
  ghost function InOrder(c: Config, n: nat): (r: seq<seq<nat>>)
    ensures |r| == n && AllComplete(c, r)
  {
    assert Complete(c, LanesFrom(0, c.nbLanes)) by {
      forall l | 0 <= l < c.nbLanes ensures l in LanesFrom(0, c.nbLanes) {
        assert LanesFrom(0, c.nbLanes)[l] == l;
      }
    }
    seq(n, _ => LanesFrom(0, c.nbLanes))
  }

  lemma InOrderRest(c: Config, n: nat)
    requires n > 0
    ensures InOrder(c, n)[0] == LanesFrom(0, c.nbLanes) && InOrder(c, n)[1..] == InOrder(c, n - 1)
  {
  }

  /** The slices from number step on, in order, make target. */
  ghost predicate Ahead<T>(c: Config, m: Mixer<T>, mem: Memory<T>, step: nat, end: nat, target: Memory<T>)
    requires c.Valid() && Sound(c, m)
  {
    Shaped(c, mem) && step <= end <= 4 * W && Run(c, m, mem, step, InOrder(c, end - step)) == target
  }

  lemma AheadStep<T>(c: Config, m: Mixer<T>, mem: Memory<T>, pass: u32, slice: nat, end: nat, target: Memory<T>)
    requires c.Valid() && Sound(c, m) && slice < 4 && 4 * pass + slice < end &&
      Ahead(c, m, mem, 4 * pass + slice, end, target)
    ensures c.SegmentSize() >= 2
    ensures Ahead(c, m, RunSlice(c, m, mem, pass, slice, LanesFrom(0, c.nbLanes)), 4 * pass + slice + 1, end, target)
  {
    hide Sound, RunSlice, InOrder, LanesFrom;
    Sizes(c);
    InOrderRest(c, end - (4 * pass + slice));
  }

  lemma AheadNone<T>(c: Config, m: Mixer<T>, mem: Memory<T>, end: nat, target: Memory<T>)
    requires c.Valid() && Sound(c, m) && Ahead(c, m, mem, end, end, target)
    ensures mem == target
  {
  }

  lemma AheadAll<T>(c: Config, m: Mixer<T>, mem: Memory<T>, end: nat)
    requires c.Valid() && Sound(c, m) && Shaped(c, mem) && end <= 4 * W
    ensures Ahead(c, m, mem, 0, end, Run(c, m, mem, 0, InOrder(c, end)))
  {
  }

  /** The loop over the slices of a pass. */
  method FillPass<T>(c: Config, m: Mixer<T>, mem: Memory<T>, pass: u32, ghost end: nat, ghost target: Memory<T>)
    returns (r: Memory<T>)
    requires c.Valid() && Sound(c, m) && 4 * pass + 4 <= end && Ahead(c, m, mem, 4 * pass, end, target)
    ensures Ahead(c, m, r, 4 * pass + 4, end, target)
  {
    hide Ahead, Sound, Run, InOrder;
    r := mem;
    for slice := 0 to 4
      invariant Ahead(c, m, r, 4 * pass + slice, end, target)
    {
      r := FillNext(c, m, r, pass, slice, end, target);
    }
  }

  method FillNext<T>(c: Config, m: Mixer<T>, mem: Memory<T>, pass: u32, slice: nat, ghost end: nat,
                     ghost target: Memory<T>)
    returns (r: Memory<T>)
    requires c.Valid() && Sound(c, m) && slice < 4 && 4 * pass + slice < end &&
      Ahead(c, m, mem, 4 * pass + slice, end, target)
    ensures Ahead(c, m, r, 4 * pass + slice + 1, end, target)
  {
    hide Sound, RunSlice, Run;
    AheadStep(c, m, mem, pass, slice, end, target);
    r := FillSlice(c, m, mem, pass, slice);
  }

  /** The loops over passes and slices. */
  method Fill<T>(c: Config, m: Mixer<T>, mem: Memory<T>, nbPasses: u32) returns (r: Memory<T>)
    requires c.Valid() && Shaped(c, mem) && Sound(c, m)
    ensures Shaped(c, r) && r == Run(c, m, mem, 0, InOrder(c, 4 * nbPasses))
  {
    hide Sound, Ahead, Run, InOrder;
    ghost var target := Run(c, m, mem, 0, InOrder(c, 4 * nbPasses));
    AheadAll(c, m, mem, 4 * nbPasses);
    r := mem;
    for pass := 0 to nbPasses
      invariant Ahead(c, m, r, 4 * pass, 4 * nbPasses, target)
    {
      r := FillPass(c, m, r, pass, 4 * nbPasses, target);
    }
    AheadNone(c, m, r, 4 * nbPasses, target);
  }
}
