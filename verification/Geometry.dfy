/** The memory geometry of argon2_ctx and the reference window of index_alpha. */
module Geometry {
  import opened Words

  const SYNC_POINTS: int := 4

  datatype Type = Argon2d | Argon2i | Argon2id

  /** argon2_instance_t without its pointers. */
  datatype Instance = Instance(
    version: Word32, passes: Word32, memoryBlocks: Word32, segmentLength: Word32,
    laneLength: Word32, lanes: Word32, threads: Word32, kind: Type)

  /** The part of argon2_ctx after validation: every assignment is made in `uint32_t`. */
  function MakeInstance(mCost: Word32, tCost: Word32, lanes: Word32, threads: Word32, version: Word32, kind: Type)
    : (i: Instance)
    requires lanes > 0 && U32(lanes * SYNC_POINTS) != 0
  {
    var least := U32(2 * SYNC_POINTS * lanes);
    var blocks := if mCost < least then least else mCost;
    var segment := Div32(blocks, U32(lanes * SYNC_POINTS));
    Instance(version, tCost, U32(segment * U32(lanes * SYNC_POINTS)), segment,
      U32(segment * SYNC_POINTS), lanes, if threads > lanes then lanes else threads, kind)
  }

  predicate Valid(i: Instance) {
    && i.lanes >= 1 && 1 <= i.threads <= i.lanes && i.passes >= 1
    && i.segmentLength >= 2
    && i.laneLength == SYNC_POINTS * i.segmentLength
    && i.memoryBlocks == i.lanes * i.laneLength
  }

  /**
   * For every accepted memory cost, lane and thread count no `uint32_t` assignment of argon2_ctx
   * wraps, every segment has at least two blocks, and at most one segment row is lost to rounding.
   */
  lemma MakeInstanceValid(mCost: Word32, tCost: Word32, lanes: Word32, threads: Word32, version: Word32, kind: Type)
    requires 1 <= lanes <= 0xFFFFFF && 1 <= threads && 1 <= tCost && mCost >= 8 * lanes
    ensures U32(lanes * SYNC_POINTS) == lanes * SYNC_POINTS
    ensures var i := MakeInstance(mCost, tCost, lanes, threads, version, kind);
      Valid(i) && i.memoryBlocks <= mCost < i.memoryBlocks + SYNC_POINTS * lanes
    ensures var i := MakeInstance(mCost, tCost, lanes, threads, version, kind);
      && i.passes == tCost && i.lanes == lanes && i.version == version && i.kind == kind
      && (i.threads == threads || i.threads == lanes) && i.threads <= threads
  {
    var row := lanes * SYNC_POINTS;
    var seg := Div32(mCost, row);
    SegmentBounds(mCost, row, seg);
    LaneProduct(lanes, seg);
    Fits(row);
    Fits(2 * row);
    Fits(seg * row);
    Fits(seg * SYNC_POINTS);
    assert MakeInstance(mCost, tCost, lanes, threads, version, kind)
        == Instance(version, tCost, seg * row, seg, seg * SYNC_POINTS, lanes,
             if threads > lanes then lanes else threads, kind);
  }

  lemma SegmentBounds(m: nat, row: nat, seg: nat)
    requires row >= SYNC_POINTS && m >= 2 * row && seg * row <= m < seg * row + row
    ensures 2 <= seg && SYNC_POINTS * seg <= m
  {
    if seg < 2 {
      MulMonotone(seg, 1, row);
    }
    MulMonotone(SYNC_POINTS, row, seg);
  }

  lemma LaneProduct(lanes: nat, seg: nat)
    ensures seg * (lanes * SYNC_POINTS) == lanes * (SYNC_POINTS * seg)
  {
  }

  // ---- index_alpha ----

  /** argon2_position_t without the lane, which index_alpha does not read. */
  datatype Position = Position(pass: Word32, slice: nat, index: Word32)

  predicate ValidPosition(i: Instance, p: Position) {
    && p.slice < SYNC_POINTS && p.index < i.segmentLength
    && (p.pass == 0 && p.slice == 0 ==> p.index >= 2)
  }

  function ReferenceAreaSize(i: Instance, p: Position, sameLane: bool): (n: Word32) {
    if p.pass == 0 then
      if p.slice == 0 then U32(p.index as int - 1)
      else if sameLane then U32(p.slice * i.segmentLength + p.index - 1)
      else U32(p.slice * i.segmentLength + (if p.index == 0 then -1 else 0))
    else
      if sameLane then U32(i.laneLength - i.segmentLength + p.index - 1)
      else U32(i.laneLength - i.segmentLength + (if p.index == 0 then -1 else 0))
  }

  /** Both products of the C function, shifted right by 32 bits, in `uint64_t` arithmetic. */
  function RelativePosition(area: Word32, pseudoRand: Word32): (r: Word64) {
    var square := U64(pseudoRand * pseudoRand) / TWO_32;
    U64(U32(area - 1) - U64(area * square) / TWO_32)
  }

  function StartPosition(i: Instance, p: Position): (s: Word32) {
    if p.pass == 0 then 0
    else if p.slice == SYNC_POINTS - 1 then 0
    else U32((p.slice + 1) * i.segmentLength)
  }

  function IndexAlpha(i: Instance, p: Position, pseudoRand: Word32, sameLane: bool): (j: Word32)
    requires i.laneLength > 0
  {
    U32(U64(StartPosition(i, p) + RelativePosition(ReferenceAreaSize(i, p, sameLane), pseudoRand)) % i.laneLength)
  }

  // ---- the reference set W of section 3.4.2 of RFC 9106 ----

  function SegmentStart(i: Instance, slice: nat): nat {
    slice * i.segmentLength
  }

  /** Columns of the last three segments that were computed and finished (fewer in the first pass). */
  predicate Finished(i: Instance, p: Position, j: int) {
    || 0 <= j < SegmentStart(i, p.slice)
    || (p.pass > 0 && SegmentStart(i, p.slice + 1) <= j < i.laneLength)
  }

  /** Columns of the current segment constructed in this pass. */
  predicate BuiltHere(i: Instance, p: Position, j: int) {
    SegmentStart(i, p.slice) <= j < SegmentStart(i, p.slice) + p.index
  }

  /** The column before the current one, cyclically. */
  function PreviousColumn(i: Instance, p: Position): int {
    var c := SegmentStart(i, p.slice) + p.index;
    if c == 0 then i.laneLength - 1 else c - 1
  }

  /** Membership in W: the previous block, and for the first block of a segment the last index, is left out. */
  predicate InWindow(i: Instance, p: Position, sameLane: bool, j: int) {
    && (Finished(i, p, j) || (sameLane && BuiltHere(i, p, j)))
    && (sameLane || p.index == 0 ==> j != PreviousColumn(i, p))
  }

  /** The k-th column of W in the order in which the blocks were computed. */
  function Nth(i: Instance, p: Position, k: nat): nat
    requires i.laneLength > 0
  {
    (StartPosition(i, p) + k) % i.laneLength
  }

  predicate Usable(i: Instance, p: Position, sameLane: bool) {
    Valid(i) && ValidPosition(i, p) && (p.pass == 0 && p.slice == 0 ==> sameLane)
  }

  lemma SliceCases(i: Instance, slice: nat)
    requires slice <= SYNC_POINTS
    ensures slice == 0 ==> SegmentStart(i, slice) == 0
    ensures slice == 1 ==> SegmentStart(i, slice) == i.segmentLength
    ensures slice == 2 ==> SegmentStart(i, slice) == 2 * i.segmentLength
    ensures slice == 3 ==> SegmentStart(i, slice) == 3 * i.segmentLength
    ensures slice == 4 ==> SegmentStart(i, slice) == 4 * i.segmentLength
  {
  }

  /** What the current lane, or the first block of a segment, adds to the finished segments. */
  function AreaTail(p: Position, sameLane: bool): int {
    var index: int := p.index;
    if sameLane then index - 1 else if index == 0 then -1 else 0
  }

  /** No `uint32_t` step of index_alpha wraps, and the window is never empty. */
  lemma AreaBounds(i: Instance, p: Position, sameLane: bool)
    requires Usable(i, p, sameLane)
    ensures 1 <= ReferenceAreaSize(i, p, sameLane) < i.laneLength
    ensures ReferenceAreaSize(i, p, sameLane) == AreaTail(p, sameLane)
      + if p.pass == 0 then SegmentStart(i, p.slice) else i.laneLength - i.segmentLength
  {
    SliceCases(i, p.slice);
    LaneFits(i);
    if p.pass == 0 {
      FirstPassArea(i, p, sameLane);
    } else {
      Fits(i.laneLength - i.segmentLength + AreaTail(p, sameLane));
    }
  }

  lemma FirstPassArea(i: Instance, p: Position, sameLane: bool)
    requires Usable(i, p, sameLane) && p.pass == 0
    ensures 1 <= ReferenceAreaSize(i, p, sameLane) == SegmentStart(i, p.slice) + AreaTail(p, sameLane)
  {
    SliceCases(i, p.slice);
    LaneFits(i);
    Fits(SegmentStart(i, p.slice) + AreaTail(p, sameLane));
  }

  lemma Fits(x: int)
    requires 0 <= x < TWO_32
    ensures U32(x) == x
  {
  }

  lemma StartExact(i: Instance, p: Position)
    requires Valid(i) && p.slice < SYNC_POINTS
    ensures p.pass > 0 && p.slice < SYNC_POINTS - 1 ==> StartPosition(i, p) == SegmentStart(i, p.slice + 1)
  {
    SliceCases(i, p.slice + 1);
    LaneFits(i);
  }

  lemma LaneFits(i: Instance)
    requires Valid(i)
    ensures i.laneLength <= i.memoryBlocks
  {
    MulMonotone(1, i.lanes, i.laneLength);
  }

  /** The first `area` places of the enumeration are exactly the members of W, each once. */
  lemma WindowEnumerated(i: Instance, p: Position, sameLane: bool, j: nat)
    requires Usable(i, p, sameLane) && j < i.laneLength
    ensures var n := ReferenceAreaSize(i, p, sameLane);
      InWindow(i, p, sameLane, j) <==> exists k: nat :: k < n && Nth(i, p, k) == j
  {
    var n, start := ReferenceAreaSize(i, p, sameLane), StartPosition(i, p);
    AreaBounds(i, p, sameLane);
    StartExact(i, p);
    SliceCases(i, p.slice);
    SliceCases(i, p.slice + 1);
    var k: nat := if j >= start then j - start else j - start + i.laneLength;
    NthRank(i, p, k, j);
    assert InWindow(i, p, sameLane, j) <==> k < n;
    forall k': nat | k' < n && Nth(i, p, k') == j
      ensures k' == k
    {
      NthAt(i, p, k');
    }
  }

  lemma StartBound(i: Instance, p: Position)
    requires Valid(i) && p.slice < SYNC_POINTS
    ensures StartPosition(i, p) < i.laneLength
  {
    SliceCases(i, p.slice + 1);
    LaneFits(i);
  }

  lemma ModWrap(x: nat, n: nat)
    requires 0 < n && x < 2 * n
    ensures x % n == if x < n then x else x - n
  {
    if x < n {
      RemainderOf(x, 0, x, n);
    } else {
      RemainderOf(x, 1, x - n, n);
    }
  }

  lemma NthAt(i: Instance, p: Position, k: nat)
    requires Valid(i) && p.slice < SYNC_POINTS && k < i.laneLength
    ensures StartPosition(i, p) < i.laneLength
    ensures Nth(i, p, k) == if StartPosition(i, p) + k < i.laneLength
      then StartPosition(i, p) + k else StartPosition(i, p) + k - i.laneLength
  {
    StartBound(i, p);
    ModWrap(StartPosition(i, p) + k, i.laneLength);
  }

  lemma NthRank(i: Instance, p: Position, k: nat, j: nat)
    requires Valid(i) && p.slice < SYNC_POINTS && j < i.laneLength
    requires k == if j >= StartPosition(i, p) then j - StartPosition(i, p) else j - StartPosition(i, p) + i.laneLength
    ensures k < i.laneLength && Nth(i, p, k) == j
  {
    StartBound(i, p);
    NthAt(i, p, k);
  }

  // ---- index_alpha lands in W ----

  /** How far back from the newest member of W the pseudo-random value points, in unbounded arithmetic. */
  function Age(area: nat, pseudoRand: nat): nat {
    (area * ((pseudoRand * pseudoRand) / TWO_32)) / TWO_32
  }

  lemma SquareBound(x: nat)
    requires x < TWO_32
    ensures x * x <= TWO_64 - 2 * TWO_32 + 1
    ensures (x * x) / TWO_32 <= TWO_32 - 2
  {
    var m := TWO_32 - 1;
    MulMonotone(x, m, x);
    MulMonotone(x, m, m);
  }

  lemma ProductHigh(area: nat, y: nat)
    requires 1 <= area < TWO_32 && y <= TWO_32 - 2
    ensures area * y < TWO_64
    ensures (area * y) / TWO_32 < area
  {
    MulMonotone(y, TWO_32 - 1, area);
    assert (TWO_32 - 1) * area < TWO_32 * area;
    QuotientBound(area * y, TWO_32, area);
  }

  /** Neither `uint64_t` product of index_alpha overflows. */
  lemma RelativeExact(area: Word32, pseudoRand: Word32)
    requires area >= 1
    ensures Age(area, pseudoRand) < area
    ensures RelativePosition(area, pseudoRand) == area - 1 - Age(area, pseudoRand)
  {
    SquareBound(pseudoRand);
    var product := pseudoRand * pseudoRand;
    assert U64(product) == product;
    var square := product / TWO_32;
    ProductHigh(area, square);
    RelativeFits(area, area * square);
  }

  lemma RelativeFits(area: Word32, v: nat)
    requires area >= 1 && v < TWO_64 && v / TWO_32 < area
    ensures U64(U32(area - 1) - U64(v) / TWO_32) == area - 1 - v / TWO_32
  {
  }

  lemma IndexAlphaIsNth(i: Instance, p: Position, pseudoRand: Word32, sameLane: bool)
    requires Usable(i, p, sameLane)
    ensures var n := ReferenceAreaSize(i, p, sameLane);
      && Age(n, pseudoRand) < n
      && IndexAlpha(i, p, pseudoRand, sameLane) == Nth(i, p, n - 1 - Age(n, pseudoRand))
      && IndexAlpha(i, p, pseudoRand, sameLane) < i.laneLength
  {
    AreaBounds(i, p, sameLane);
    var n := ReferenceAreaSize(i, p, sameLane);
    RelativeExact(n, pseudoRand);
    NthAt(i, p, n - 1 - Age(n, pseudoRand));
    SumFits(StartPosition(i, p), n - 1 - Age(n, pseudoRand), i.laneLength);
  }

  lemma SumFits(start: Word32, relative: Word32, lane: Word32)
    requires start < lane && relative < lane
    ensures U32(U64(start + relative) % lane) == (start + relative) % lane < lane
  {
    var sum: int := start + relative;
    ModWrap(sum, lane);
  }

  /** Whatever the pseudo-random value, the reference block is a member of W. */
  lemma IndexAlphaInWindow(i: Instance, p: Position, pseudoRand: Word32, sameLane: bool)
    requires Usable(i, p, sameLane)
    ensures InWindow(i, p, sameLane, IndexAlpha(i, p, pseudoRand, sameLane))
  {
    IndexAlphaIsNth(i, p, pseudoRand, sameLane);
    WindowEnumerated(i, p, sameLane, IndexAlpha(i, p, pseudoRand, sameLane));
  }

  lemma DivideMonotone(x: nat, y: nat, m: nat)
    requires x <= y && m > 0
    ensures x / m <= y / m
  {
    QuotientTimes(x, m);
    QuotientTimes(y, m);
    if y / m < x / m {
      MulMonotone(y / m + 1, x / m, m);
    }
  }

  lemma AgeMonotone(area: nat, a: nat, b: nat)
    requires a <= b
    ensures Age(area, a) <= Age(area, b)
  {
    MulMonotone(a, b, a);
    MulMonotone(a, b, b);
    DivideMonotone(a * a, b * b, TWO_32);
    MulMonotone((a * a) / TWO_32, (b * b) / TWO_32, area);
    DivideMonotone(area * ((a * a) / TWO_32), area * ((b * b) / TWO_32), TWO_32);
  }

  /** Larger pseudo-random values never point to newer blocks. */
  lemma RelativePositionNonIncreasing(area: Word32, a: Word32, b: Word32)
    requires area >= 1 && a <= b
    ensures RelativePosition(area, b) <= RelativePosition(area, a)
  {
    RelativeExact(area, a);
    RelativeExact(area, b);
    AgeMonotone(area, a, b);
  }

  // ---- which members of W can be chosen at all ----

  const HALF: int := 0x8000_0000

  lemma AgeStep(area: nat, x: nat)
    requires area <= HALF && x + 1 < TWO_32
    ensures Age(area, x + 1) <= Age(area, x) + 1
  {
    var a, b := (x * x) / TWO_32, ((x + 1) * (x + 1)) / TWO_32;
    assert (x + 1) * (x + 1) == x * x + 2 * x + 1;
    assert b <= a + 2;
    MulMonotone(b, a + 2, area);
    assert (a + 2) * area == area * a + 2 * area;
    DivideMonotone(area * b, area * a + TWO_32, TWO_32);
  }

  lemma AgeOfLargest(area: nat)
    requires 1 <= area < TWO_32
    ensures Age(area, TWO_32 - 1) == if area <= HALF then area - 1 else area - 2
  {
    var m := TWO_32 - 1;
    assert m * m == (TWO_32 - 2) * TWO_32 + 1;
    assert (m * m) / TWO_32 == TWO_32 - 2;
    var v := area * (TWO_32 - 2);
    if area <= HALF {
      RemainderOf(v, area - 1, TWO_32 - 2 * area, TWO_32);
      DivModUnique(TWO_32 - 2 * area, area - 1, TWO_32);
    } else {
      DivModUnique(2 * TWO_32 - 2 * area, area - 2, TWO_32);
    }
  }

  /** Ages grow by at most one from each value to the next, so none below the largest is skipped. */
  lemma {:induction false} AgeReached(area: nat, age: nat, x: nat) returns (r: nat)
    requires area <= HALF && x < TWO_32 && age <= Age(area, x)
    ensures r <= x && Age(area, r) == age
  {
    if age == Age(area, x) {
      r := x;
    } else {
      assert x > 0;
      AgeStep(area, x - 1);
      r := AgeReached(area, age, x - 1);
    }
  }

  ghost predicate EveryMemberReached(i: Instance, p: Position, sameLane: bool)
    requires i.laneLength > 0
  {
    forall j: nat | j < i.laneLength && InWindow(i, p, sameLane, j) ::
      exists r: Word32 :: IndexAlpha(i, p, r, sameLane) == j
  }

  lemma MemberReached(i: Instance, p: Position, sameLane: bool, j: nat) returns (r: Word32)
    requires Usable(i, p, sameLane) && j < i.laneLength && InWindow(i, p, sameLane, j)
    requires ReferenceAreaSize(i, p, sameLane) <= HALF
    ensures IndexAlpha(i, p, r, sameLane) == j
  {
    var n := ReferenceAreaSize(i, p, sameLane);
    AreaBounds(i, p, sameLane);
    WindowEnumerated(i, p, sameLane, j);
    var k: nat :| k < n && Nth(i, p, k) == j;
    AgeOfLargest(n);
    r := AgeReached(n, n - 1 - k, TWO_32 - 1);
    IndexAlphaIsNth(i, p, r, sameLane);
  }

  /** The oldest member of a window of more than 2^31 blocks is never chosen. */
  lemma OldestMissed(i: Instance, p: Position, sameLane: bool, r: Word32)
    requires Usable(i, p, sameLane) && ReferenceAreaSize(i, p, sameLane) > HALF
    ensures InWindow(i, p, sameLane, Nth(i, p, 0)) && Nth(i, p, 0) < i.laneLength
    ensures IndexAlpha(i, p, r, sameLane) != Nth(i, p, 0)
  {
    var n := ReferenceAreaSize(i, p, sameLane);
    AreaBounds(i, p, sameLane);
    WindowEnumerated(i, p, sameLane, Nth(i, p, 0));
    IndexAlphaIsNth(i, p, r, sameLane);
    AgeOfLargest(n);
    AgeMonotone(n, r, TWO_32 - 1);
    NthAt(i, p, 0);
    NthAt(i, p, n - 1 - Age(n, r));
  }

  /**
   * Such windows exist: one lane over the largest accepted memory, at the start of the second pass. Its
   * oldest block cannot be referenced.
   */
  lemma LargestWindow()
    ensures var i := MakeInstance(0xFFFF_FFFF, 2, 1, 1, 0x13, Argon2d);
      var p := Position(1, 0, 0);
      Usable(i, p, true) && ReferenceAreaSize(i, p, true) > HALF && !EveryMemberReached(i, p, true)
  {
    MakeInstanceValid(0xFFFF_FFFF, 2, 1, 1, 0x13, Argon2d);
    var i := MakeInstance(0xFFFF_FFFF, 2, 1, 1, 0x13, Argon2d);
    var p := Position(1, 0, 0);
    AreaBounds(i, p, true);
    WindowReachedExactlyWhen(i, p, true);
  }

  /** The pseudo-random values reach all of W exactly when W has at most 2^31 members. */
  lemma WindowReachedExactlyWhen(i: Instance, p: Position, sameLane: bool)
    requires Usable(i, p, sameLane)
    ensures EveryMemberReached(i, p, sameLane) <==> ReferenceAreaSize(i, p, sameLane) <= HALF
  {
    if ReferenceAreaSize(i, p, sameLane) <= HALF {
      forall j: nat | j < i.laneLength && InWindow(i, p, sameLane, j)
        ensures exists r: Word32 :: IndexAlpha(i, p, r, sameLane) == j
      {
        var r := MemberReached(i, p, sameLane, j);
      }
    } else {
      forall r: Word32
        ensures IndexAlpha(i, p, r, sameLane) != Nth(i, p, 0)
      {
        OldestMissed(i, p, sameLane, r);
      }
      OldestMissed(i, p, sameLane, 0);
    }
  }
}
