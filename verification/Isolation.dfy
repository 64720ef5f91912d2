/**
 * Why the lanes of one slice do not disturb each other: what a block-step reads, and what the
 * memory looks like when the lanes of a slice have got to different points.
 */
module Isolation {
  import opened Words
  import opened Geometry
  import opened Filling

  predicate InSegment(i: Instance, slice: nat, c: int) {
    SegmentStart(i, slice) <= c < SegmentStart(i, slice + 1)
  }

  /** A reference into another lane stays out of the segment that lane is writing in this slice. */
  lemma ReferenceIsolated(i: Instance, p: Position, lane: nat, rand: Word64)
    requires Placed(i, p, lane)
    ensures ReferenceLane(i, p, lane, rand) != lane ==> !InSegment(i, p.slice, ReferenceColumn(i, p, lane, rand))
    ensures ReferenceLane(i, p, lane, rand) == lane ==>
      ReferenceColumn(i, p, lane, rand) != Column(i, p) && ReferenceColumn(i, p, lane, rand) != PreviousColumn(i, p)
    ensures InWindow(i, p, ReferenceLane(i, p, lane, rand) == lane, ReferenceColumn(i, p, lane, rand))
  {
    IndexAlphaInWindow(i, p, rand % TWO_32, ReferenceLane(i, p, lane, rand) == lane);
    SliceCases(i, p.slice);
    SliceCases(i, p.slice + 1);
  }

  lemma ColumnInSegment(i: Instance, p: Position, lane: nat)
    requires Placed(i, p, lane)
    ensures InSegment(i, p.slice, Column(i, p))
  {
    SliceCases(i, p.slice);
    SliceCases(i, p.slice + 1);
  }

  /**
   * Slice isolation: of two lanes working in the same slice, whatever points they have reached,
   * neither reads the block the other is writing.
   */
  lemma SliceIsolation(i: Instance, p: Position, lane: nat, rand: Word64, q: Position, other: nat)
    requires Placed(i, p, lane) && Placed(i, q, other) && lane != other
    requires p.pass == q.pass && p.slice == q.slice
    ensures (lane, PreviousColumn(i, p)) != (other, Column(i, q))
    ensures (ReferenceLane(i, p, lane, rand), ReferenceColumn(i, p, lane, rand)) != (other, Column(i, q))
    ensures (lane, Column(i, p)) != (other, Column(i, q))
  {
    ReferenceIsolated(i, p, lane, rand);
    ColumnInSegment(i, q, other);
  }

  /** The matrices agree wherever `lane` may look: in its own row and outside the current segments. */
  ghost predicate AgreeInView<B>(i: Instance, slice: nat, lane: nat, a: Matrix<B>, b: Matrix<B>)
    requires Shaped(i, a) && Shaped(i, b)
  {
    forall l: nat, c: nat | l < i.lanes && c < i.laneLength && (l == lane || !InSegment(i, slice, c)) ::
      a[l][c] == b[l][c]
  }

  lemma ViewAt<B>(i: Instance, slice: nat, lane: nat, a: Matrix<B>, b: Matrix<B>, l: nat, c: nat)
    requires Shaped(i, a) && Shaped(i, b) && AgreeInView(i, slice, lane, a, b)
    requires l < i.lanes && c < i.laneLength && (l == lane || !InSegment(i, slice, c))
    ensures a[l][c] == b[l][c]
  {
  }

  lemma FetchAgrees<B>(k: Kernel<B>, i: Instance, a: Matrix<B>, b: Matrix<B>, p: Position, lane: nat)
    requires Placed(i, p, lane) && Shaped(i, a) && Shaped(i, b)
    requires AgreeInView(i, p.slice, lane, a, b)
    ensures Fetch(k, i, a, p, lane) == Fetch(k, i, b, p, lane)
  {
    ColumnInLane(i, p, lane);
    ViewAt(i, p.slice, lane, a, b, lane, PreviousColumn(i, p));
    ViewAt(i, p.slice, lane, a, b, lane, Column(i, p));
    var rand := PseudoRand(k, i, p, lane, a[lane][PreviousColumn(i, p)]);
    ReferenceIsolated(i, p, lane, rand);
    ViewAt(i, p.slice, lane, a, b, ReferenceLane(i, p, lane, rand), ReferenceColumn(i, p, lane, rand));
  }

  lemma SegmentStep<B>(k: Kernel<B>, i: Instance, m: Matrix<B>, pass: Word32, slice: nat, lane: nat, n: nat)
    requires Valid(i) && slice < SYNC_POINTS && lane < i.lanes && Shaped(i, m)
    requires StartIndex(pass, slice) <= n < i.segmentLength
    ensures Segment(k, i, m, pass, slice, lane, n + 1)
         == BlockStep(k, i, Segment(k, i, m, pass, slice, lane, n), Position(pass, slice, n), lane)
  {
  }

  /** fill_segment writes only its own lane's current segment. */
  lemma {:induction false} SegmentFrame<B>(
    k: Kernel<B>, i: Instance, m: Matrix<B>, pass: Word32, slice: nat, lane: nat, n: nat, l: nat, c: nat)
    requires Valid(i) && lane < i.lanes && slice < SYNC_POINTS && n <= i.segmentLength && Shaped(i, m)
    requires l < i.lanes && c < i.laneLength && (l != lane || !InSegment(i, slice, c))
    ensures Segment(k, i, m, pass, slice, lane, n)[l][c] == m[l][c]
    decreases n
  {
    if n > StartIndex(pass, slice) {
      SegmentFrame(k, i, m, pass, slice, lane, n - 1, l, c);
      ColumnInSegment(i, Position(pass, slice, n - 1), lane);
    }
  }

  predicate AllWithin(i: Instance, slice: nat, done: seq<nat>) {
    && Valid(i) && slice < SYNC_POINTS && |done| == i.lanes
    && forall l | 0 <= l < |done| :: done[l] <= i.segmentLength
  }

  /** The block at row l, column c once lane l has built its blocks with index below done[l]. */
  ghost function Expected<B>(
    k: Kernel<B>, i: Instance, base: Matrix<B>, pass: Word32, slice: nat, done: seq<nat>, l: nat, c: nat): B
    requires AllWithin(i, slice, done) && Shaped(i, base) && l < i.lanes && c < i.laneLength
  {
    if InSegment(i, slice, c) then Segment(k, i, base, pass, slice, l, done[l])[l][c] else base[l][c]
  }

  /**
   * `m` is what `base` becomes when each lane l has built its blocks with index below done[l],
   * no matter in which order the lanes took turns.
   */
  ghost predicate Merged<B>(
    k: Kernel<B>, i: Instance, base: Matrix<B>, pass: Word32, slice: nat, done: seq<nat>, m: Matrix<B>)
  {
    && AllWithin(i, slice, done) && Shaped(i, base) && Shaped(i, m)
    && forall l: nat, c: nat {:trigger m[l][c]} | l < i.lanes && c < i.laneLength ::
         m[l][c] == Expected(k, i, base, pass, slice, done, l, c)
  }

  lemma MergedUnique<B>(
    k: Kernel<B>, i: Instance, base: Matrix<B>, pass: Word32, slice: nat, done: seq<nat>, a: Matrix<B>, b: Matrix<B>)
    requires Merged(k, i, base, pass, slice, done, a) && Merged(k, i, base, pass, slice, done, b)
    ensures a == b
  {
    forall l: nat | l < |a|
      ensures a[l] == b[l]
    {
      forall c: nat | c < |a[l]|
        ensures a[l][c] == b[l][c]
      {
      }
    }
  }

  /** Seen from lane `l`, the merged memory is the memory of `l` having run alone. */
  lemma MergedInView<B>(
    k: Kernel<B>, i: Instance, base: Matrix<B>, pass: Word32, slice: nat, done: seq<nat>, m: Matrix<B>, lane: nat)
    requires Merged(k, i, base, pass, slice, done, m) && lane < i.lanes
    ensures AgreeInView(i, slice, lane, m, Segment(k, i, base, pass, slice, lane, done[lane]))
  {
    forall l: nat, c: nat | l < i.lanes && c < i.laneLength && !InSegment(i, slice, c)
      ensures Segment(k, i, base, pass, slice, lane, done[lane])[l][c] == base[l][c]
    {
      SegmentFrame(k, i, base, pass, slice, lane, done[lane], l, c);
    }
  }

  /** Storing the block computed from what `lane` running alone would have read keeps the memory merged. */
  lemma MergedWrite<B>(
    k: Kernel<B>, i: Instance, base: Matrix<B>, pass: Word32, slice: nat, done: seq<nat>, m: Matrix<B>,
    lane: nat, r: Reads<B>)
    requires Merged(k, i, base, pass, slice, done, m) && lane < i.lanes
    requires StartIndex(pass, slice) <= done[lane] < i.segmentLength
    requires
      r == Fetch(k, i, Segment(k, i, base, pass, slice, lane, done[lane]), Position(pass, slice, done[lane]), lane)
    ensures Merged(k, i, base, pass, slice, done[lane := done[lane] + 1],
      Write(k, i, m, Position(pass, slice, done[lane]), lane, r))
  {
    var p := Position(pass, slice, done[lane]);
    var m' := Write(k, i, m, p, lane, r);
    forall l: nat, c: nat | l < i.lanes && c < i.laneLength
      ensures m'[l][c] == Expected(k, i, base, pass, slice, done[lane := done[lane] + 1], l, c)
    {
      WriteCell(k, i, m, p, lane, r, l, c);
      WriteCell(k, i, Segment(k, i, base, pass, slice, lane, done[lane]), p, lane, r, l, c);
      assert m[l][c] == Expected(k, i, base, pass, slice, done, l, c);
      SegmentNext(k, i, base, pass, slice, lane, done[lane], r);
    }
  }

  lemma WriteCell<B>(k: Kernel<B>, i: Instance, m: Matrix<B>, p: Position, lane: nat, r: Reads<B>, l: nat, c: nat)
    requires Placed(i, p, lane) && Shaped(i, m) && l < i.lanes && c < i.laneLength
    ensures Write(k, i, m, p, lane, r)[l][c] ==
      if l == lane && c == Column(i, p) then NewBlock(k, i, p, r.prev, r.ref, r.prior) else m[l][c]
    ensures InSegment(i, p.slice, Column(i, p))
  {
    ColumnInLane(i, p, lane);
    ColumnInSegment(i, p, lane);
  }

  lemma SegmentNext<B>(
    k: Kernel<B>, i: Instance, base: Matrix<B>, pass: Word32, slice: nat, lane: nat, n: nat, r: Reads<B>)
    requires Valid(i) && slice < SYNC_POINTS && lane < i.lanes && Shaped(i, base)
    requires StartIndex(pass, slice) <= n < i.segmentLength
    requires r == Fetch(k, i, Segment(k, i, base, pass, slice, lane, n), Position(pass, slice, n), lane)
    ensures Segment(k, i, base, pass, slice, lane, n + 1)
         == Write(k, i, Segment(k, i, base, pass, slice, lane, n), Position(pass, slice, n), lane, r)
  {
  }

  lemma MergedStep<B>(
    k: Kernel<B>, i: Instance, base: Matrix<B>, pass: Word32, slice: nat, done: seq<nat>, m: Matrix<B>, lane: nat)
    requires Merged(k, i, base, pass, slice, done, m) && lane < i.lanes
    requires StartIndex(pass, slice) <= done[lane] < i.segmentLength
    ensures var p := Position(pass, slice, done[lane]);
      && Fetch(k, i, m, p, lane) == Fetch(k, i, Segment(k, i, base, pass, slice, lane, done[lane]), p, lane)
      && Merged(k, i, base, pass, slice, done[lane := done[lane] + 1], BlockStep(k, i, m, p, lane))
  {
    var p := Position(pass, slice, done[lane]);
    MergedInView(k, i, base, pass, slice, done, m, lane);
    FetchAgrees(k, i, m, Segment(k, i, base, pass, slice, lane, done[lane]), p, lane);
    MergedWrite(k, i, base, pass, slice, done, m, lane, Fetch(k, i, m, p, lane));
  }

  // ---- the single-threaded order is one of the orders ----

  lemma {:induction false} SegmentMerged<B>(
    k: Kernel<B>, i: Instance, base: Matrix<B>, pass: Word32, slice: nat, done: seq<nat>, m: Matrix<B>,
    lane: nat, n: nat)
    requires Merged(k, i, base, pass, slice, done, m) && lane < i.lanes
    requires done[lane] == StartIndex(pass, slice) <= n <= i.segmentLength
    ensures Merged(k, i, base, pass, slice, done[lane := n], Segment(k, i, m, pass, slice, lane, n))
    decreases n
  {
    if n == done[lane] {
      assert done[lane := n] == done;
    } else {
      var before, was := done[lane := n - 1], Segment(k, i, m, pass, slice, lane, n - 1);
      assert Merged(k, i, base, pass, slice, before, was) by {
        SegmentMerged(k, i, base, pass, slice, done, m, lane, n - 1);
      }
      assert before[lane := before[lane] + 1] == done[lane := n];
      SegmentStep(k, i, m, pass, slice, lane, n - 1);
      MergedStep(k, i, base, pass, slice, before, was, lane);
    }
  }

  /** How far each lane is when the lanes below `n` are finished and the others have not begun. */
  function Progress(i: Instance, pass: nat, slice: nat, n: nat): (d: seq<nat>) {
    seq(i.lanes, l requires 0 <= l < i.lanes => Reached(i, pass, slice, n, l))
  }

  function Reached(i: Instance, pass: nat, slice: nat, n: nat, l: nat): (index: nat) {
    if l < n then i.segmentLength else StartIndex(pass, slice)
  }

  lemma MergedAtStart<B>(k: Kernel<B>, i: Instance, base: Matrix<B>, pass: Word32, slice: nat)
    requires Valid(i) && slice < SYNC_POINTS && Shaped(i, base)
    ensures Merged(k, i, base, pass, slice, Progress(i, pass, slice, 0), base)
  {
  }

  lemma {:induction false} SliceMerged<B>(k: Kernel<B>, i: Instance, base: Matrix<B>, pass: Word32, slice: nat, n: nat)
    requires Valid(i) && n <= i.lanes && slice < SYNC_POINTS && Shaped(i, base)
    ensures Merged(k, i, base, pass, slice, Progress(i, pass, slice, n), Slice(k, i, base, pass, slice, n))
    decreases n
  {
    if n == 0 {
      MergedAtStart(k, i, base, pass, slice);
    } else {
      SliceMerged(k, i, base, pass, slice, n - 1);
      var done := Progress(i, pass, slice, n - 1);
      SegmentMerged(k, i, base, pass, slice, done, Slice(k, i, base, pass, slice, n - 1), n - 1, i.segmentLength);
      assert done[n - 1 := i.segmentLength] == Progress(i, pass, slice, n);
    }
  }

  /** However the lanes interleaved, once all have finished the memory is the sequential one. */
  lemma MergedIsSlice<B>(
    k: Kernel<B>, i: Instance, base: Matrix<B>, pass: Word32, slice: nat, done: seq<nat>, m: Matrix<B>)
    requires Merged(k, i, base, pass, slice, done, m)
    requires forall l | 0 <= l < |done| :: done[l] == i.segmentLength
    ensures m == Slice(k, i, base, pass, slice, i.lanes)
  {
    SliceMerged(k, i, base, pass, slice, i.lanes);
    assert done == Progress(i, pass, slice, i.lanes);
    MergedUnique(k, i, base, pass, slice, done, m, Slice(k, i, base, pass, slice, i.lanes));
  }
}
