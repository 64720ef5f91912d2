/**
 * Every block is written once per pass, in the first pass nothing is read before it is written,
 * and what the memory held before initialisation therefore does not matter.
 */
module Initialised {
  import opened Geometry
  import opened Filling
  import opened Isolation
  import opened Schedule
  import opened ThreadPool

  // ---- one write per block and pass, on every run of the threads ----

  /** Whether column c of row l has been written in the pass under way; fill_first_blocks counts as pass 0. */
  predicate Written<B>(i: Instance, s: State<B>, l: nat, c: nat)
    requires l < |s.threads|
  {
    c < SegmentStart(i, s.slice) + Done(i, s, s.threads[l])
  }

  /** How often column c of row l has been written in pass r so far. */
  function WritesIn<B>(i: Instance, s: State<B>, r: nat, l: nat, c: nat): nat
    requires l < |s.threads|
  {
    if s.pass > r then 1 else if s.pass < r then 0 else One(Written(i, s, l, c))
  }

  /** Whether the action stores a block at row l, column c in pass r. */
  predicate StoresTo<B>(i: Instance, s: State<B>, a: Action, r: nat, l: nat, c: nat) {
    && a == Store(l) && l < |s.threads| && s.threads[l].Running? && s.pass == r
    && SegmentStart(i, s.slice) + s.threads[l].next == c
  }

  ghost function Stores<B>(
    k: Kernel<B>, i: Instance, s: State<B>, acts: seq<Action>, t: State<B>, r: nat, l: nat, c: nat): nat
    requires WellFormed(i, s) && Runs(k, i, s, acts, t)
    decreases |acts|
  {
    if acts == [] then 0
    else One(StoresTo(i, s, acts[0], r, l, c)) + Stores(k, i, Apply(k, i, s, acts[0]), acts[1..], t, r, l, c)
  }

  /** Starting the next slice neither adds to nor takes from what has been written. */
  lemma NextSliceWrites<B>(k: Kernel<B>, i: Instance, s: State<B>, r: nat, l: nat, c: nat)
    requires WellFormed(i, s) && PoolInv(i, s) && Enabled(i, s, NextSlice) && l < i.lanes && c < i.laneLength
    ensures WritesIn(i, Apply(k, i, s, NextSlice), r, l, c) == WritesIn(i, s, r, l, c)
  {
    SliceCases(i, s.slice);
    SliceCases(i, s.slice + 1);
  }

  lemma StepWrites<B>(k: Kernel<B>, i: Instance, m: Matrix<B>, s: State<B>, a: Action, r: nat, l: nat, c: nat)
    requires Inv(k, i, m, s) && Enabled(i, s, a) && l < i.lanes && c < i.laneLength
    ensures WritesIn(i, Apply(k, i, s, a), r, l, c) == WritesIn(i, s, r, l, c) + One(StoresTo(i, s, a, r, l, c))
  {
    hide LaneInv, Base, Fetch, Write, SegmentStart;
    if a.NextSlice? {
      NextSliceWrites(k, i, s, r, l, c);
    } else if a.Exit? {
      ExitDone(k, i, m, s, a.lane);
    }
  }

  lemma ExitDone<B>(k: Kernel<B>, i: Instance, m: Matrix<B>, s: State<B>, l: nat)
    requires Inv(k, i, m, s) && Enabled(i, s, Exit(l))
    ensures s.threads[l].next == i.segmentLength
  {
    assert LaneInv(k, i, Base(k, i, m, s.pass, s.slice), s, l);
  }

  lemma {:induction false} RunWrites<B>(
    k: Kernel<B>, i: Instance, m: Matrix<B>, s: State<B>, acts: seq<Action>, t: State<B>, r: nat, l: nat, c: nat)
    requires Inv(k, i, m, s) && Runs(k, i, s, acts, t) && l < i.lanes && c < i.laneLength
    ensures |t.threads| == i.lanes
    ensures WritesIn(i, t, r, l, c) == WritesIn(i, s, r, l, c) + Stores(k, i, s, acts, t, r, l, c)
    decreases |acts|
  {
    hide Inv, Apply, Enabled, WritesIn;
    InvPool(k, i, m, s);
    if acts != [] {
      StepWrites(k, i, m, s, acts[0], r, l, c);
      StepInv(k, i, m, s, acts[0]);
      RunWrites(k, i, m, Apply(k, i, s, acts[0]), acts[1..], t, r, l, c);
    }
  }

  /**
   * On every finished run the threads store each block once in each pass, except the first two
   * columns in pass 0, which fill_first_blocks has written.
   */
  lemma WrittenOncePerPass<B>(
    k: Kernel<B>, i: Instance, m: Matrix<B>, acts: seq<Action>, t: State<B>, r: nat, l: nat, c: nat)
    requires Valid(i) && Shaped(i, m) && l < i.lanes && c < i.laneLength && r < i.passes
    requires Runs(k, i, Initial(i, m), acts, t) && t.phase.Finished?
    ensures Stores(k, i, Initial(i, m), acts, t, r, l, c) == if r == 0 && c < 2 then 0 else 1
  {
    InitialInv(k, i, m);
    RunInv(k, i, m, Initial(i, m), acts, t);
    RunWrites(k, i, m, Initial(i, m), acts, t, r, l, c);
    SliceCases(i, 0);
    SliceCases(i, t.slice);
  }

  /** In the first pass a lane thread reads only blocks that have been written, whatever the schedule. */
  lemma ReadsAreWritten<B>(k: Kernel<B>, i: Instance, m: Matrix<B>, acts: seq<Action>, s: State<B>, l: nat)
    requires Valid(i) && Shaped(i, m) && Runs(k, i, Initial(i, m), acts, s) && WellFormed(i, s)
    requires Enabled(i, s, Load(l)) && s.pass == 0
    ensures var p := Position(0, s.slice, s.threads[l].next);
      && 0 <= PreviousColumn(i, p) < i.laneLength && Written(i, s, l, PreviousColumn(i, p))
      && var rand := PseudoRand(k, i, p, l, s.mem[l][PreviousColumn(i, p)]);
         Written(i, s, ReferenceLane(i, p, l, rand), ReferenceColumn(i, p, l, rand))
  {
    InitialInv(k, i, m);
    RunInv(k, i, m, Initial(i, m), acts, s);
    InvPool(k, i, m, s);
    var p := Position(0, s.slice, s.threads[l].next);
    ColumnInLane(i, p, l);
    var rand := PseudoRand(k, i, p, l, s.mem[l][PreviousColumn(i, p)]);
    ReferenceIsolated(i, p, l, rand);
  }

  // ---- what the memory held before does not matter ----

  /** Cells written in pass 0 once the lanes below `lane` have finished the slice and `lane` has reached n. */
  predicate Filled(i: Instance, slice: nat, lane: nat, n: nat, l: nat, c: nat) {
    || c < 2
    || c < SegmentStart(i, slice) + (if l < lane then i.segmentLength else if l == lane then n else 0)
  }

  ghost predicate AgreeOnFilled<B>(i: Instance, slice: nat, lane: nat, n: nat, a: Matrix<B>, b: Matrix<B>)
    requires Shaped(i, a) && Shaped(i, b)
  {
    forall l: nat, c: nat | l < i.lanes && c < i.laneLength && Filled(i, slice, lane, n, l, c) :: a[l][c] == b[l][c]
  }

  lemma BlockStepAgrees<B>(k: Kernel<B>, i: Instance, a: Matrix<B>, b: Matrix<B>, p: Position, lane: nat)
    requires Placed(i, p, lane) && p.pass == 0 && Shaped(i, a) && Shaped(i, b)
    requires AgreeOnFilled(i, p.slice, lane, p.index, a, b)
    ensures AgreeOnFilled(i, p.slice, lane, p.index + 1, BlockStep(k, i, a, p, lane), BlockStep(k, i, b, p, lane))
  {
    var ra, rb := Fetch(k, i, a, p, lane), Fetch(k, i, b, p, lane);
    FilledReads(k, i, a, b, p, lane);
    assert NewBlock(k, i, p, ra.prev, ra.ref, ra.prior) == NewBlock(k, i, p, rb.prev, rb.ref, rb.prior);
    forall l: nat, c: nat | l < i.lanes && c < i.laneLength && Filled(i, p.slice, lane, p.index + 1, l, c)
      ensures Write(k, i, a, p, lane, ra)[l][c] == Write(k, i, b, p, lane, rb)[l][c]
    {
      WriteCell(k, i, a, p, lane, ra, l, c);
      WriteCell(k, i, b, p, lane, rb, l, c);
    }
  }

  lemma FilledReads<B>(k: Kernel<B>, i: Instance, a: Matrix<B>, b: Matrix<B>, p: Position, lane: nat)
    requires Placed(i, p, lane) && p.pass == 0 && Shaped(i, a) && Shaped(i, b)
    requires AgreeOnFilled(i, p.slice, lane, p.index, a, b)
    ensures Fetch(k, i, a, p, lane).prev == Fetch(k, i, b, p, lane).prev
    ensures Fetch(k, i, a, p, lane).ref == Fetch(k, i, b, p, lane).ref
  {
    ColumnInLane(i, p, lane);
    var prev: nat := PreviousColumn(i, p);
    SliceCases(i, p.slice);
    assert Filled(i, p.slice, lane, p.index, lane, prev);
    var rand := PseudoRand(k, i, p, lane, a[lane][prev]);
    ReferenceIsolated(i, p, lane, rand);
    assert Filled(i, p.slice, lane, p.index, ReferenceLane(i, p, lane, rand), ReferenceColumn(i, p, lane, rand));
  }

  lemma {:induction false} SegmentAgrees<B>(
    k: Kernel<B>, i: Instance, a: Matrix<B>, b: Matrix<B>, slice: nat, lane: nat, n: nat)
    requires Valid(i) && lane < i.lanes && slice < SYNC_POINTS && n <= i.segmentLength && Shaped(i, a) && Shaped(i, b)
    requires AgreeOnFilled(i, slice, lane, 0, a, b)
    ensures AgreeOnFilled(i, slice, lane, n, Segment(k, i, a, 0, slice, lane, n), Segment(k, i, b, 0, slice, lane, n))
    decreases n
  {
    hide BlockStep;
    if n > StartIndex(0, slice) {
      SegmentAgrees(k, i, a, b, slice, lane, n - 1);
      SegmentStep(k, i, a, 0, slice, lane, n - 1);
      SegmentStep(k, i, b, 0, slice, lane, n - 1);
      BlockStepAgrees(k, i, Segment(k, i, a, 0, slice, lane, n - 1), Segment(k, i, b, 0, slice, lane, n - 1),
        Position(0, slice, n - 1), lane);
    } else {
      SliceCases(i, slice);
    }
  }

  lemma {:induction false} SliceAgrees<B>(k: Kernel<B>, i: Instance, a: Matrix<B>, b: Matrix<B>, slice: nat, n: nat)
    requires Valid(i) && n <= i.lanes && slice < SYNC_POINTS && Shaped(i, a) && Shaped(i, b)
    requires AgreeOnFilled(i, slice, 0, 0, a, b)
    ensures AgreeOnFilled(i, slice, n, 0, Slice(k, i, a, 0, slice, n), Slice(k, i, b, 0, slice, n))
    decreases n
  {
    if n > 0 {
      SliceAgrees(k, i, a, b, slice, n - 1);
      var a', b' := Slice(k, i, a, 0, slice, n - 1), Slice(k, i, b, 0, slice, n - 1);
      SegmentAgrees(k, i, a', b', slice, n - 1, i.segmentLength);
    }
  }

  lemma {:induction false} PassAgrees<B>(k: Kernel<B>, i: Instance, a: Matrix<B>, b: Matrix<B>, n: nat)
    requires Valid(i) && n <= SYNC_POINTS && Shaped(i, a) && Shaped(i, b)
    requires AgreeOnFilled(i, 0, 0, 0, a, b)
    ensures AgreeOnFilled(i, n, 0, 0, Pass(k, i, a, 0, n), Pass(k, i, b, 0, n))
    decreases n
  {
    if n > 0 {
      PassAgrees(k, i, a, b, n - 1);
      SliceAgrees(k, i, Pass(k, i, a, 0, n - 1), Pass(k, i, b, 0, n - 1), n - 1, i.lanes);
      SliceCases(i, n - 1);
      SliceCases(i, n);
    }
  }

  lemma AllFilled<B>(i: Instance, a: Matrix<B>, b: Matrix<B>)
    requires Valid(i) && Shaped(i, a) && Shaped(i, b) && AgreeOnFilled(i, SYNC_POINTS, 0, 0, a, b)
    ensures a == b
  {
    SliceCases(i, SYNC_POINTS);
    forall l: nat | l < |a|
      ensures a[l] == b[l]
    {
      forall c: nat | c < |a[l]|
        ensures a[l][c] == b[l][c]
      {
        assert Filled(i, SYNC_POINTS, 0, 0, l, c);
      }
    }
  }

  ghost predicate SameFirstColumns<B>(i: Instance, a: Matrix<B>, b: Matrix<B>)
    requires Valid(i) && Shaped(i, a) && Shaped(i, b)
  {
    forall l: nat | l < i.lanes :: a[l][0] == b[l][0] && a[l][1] == b[l][1]
  }

  /** The filled memory depends only on what fill_first_blocks wrote: allocated garbage never shows. */
  lemma {:induction false} GarbageIrrelevant<B>(k: Kernel<B>, i: Instance, a: Matrix<B>, b: Matrix<B>, n: nat)
    requires Valid(i) && Shaped(i, a) && Shaped(i, b) && 1 <= n <= i.passes
    requires SameFirstColumns(i, a, b)
    ensures Passes(k, i, a, n) == Passes(k, i, b, n)
    decreases n
  {
    if n == 1 {
      assert Passes(k, i, a, 0) == a && Passes(k, i, b, 0) == b;
      assert AgreeOnFilled(i, 0, 0, 0, a, b);
      PassAgrees(k, i, a, b, SYNC_POINTS);
      AllFilled(i, Pass(k, i, a, 0, SYNC_POINTS), Pass(k, i, b, 0, SYNC_POINTS));
    } else {
      GarbageIrrelevant(k, i, a, b, n - 1);
    }
  }
}
