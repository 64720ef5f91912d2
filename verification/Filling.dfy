/**
 * What fill_segment and the sequential filler compute, on the lanes-by-columns matrix
 * of section 3.2 of RFC 9106. FillSegment.dfy ties the C loops on the flat array to it.
 */
module Filling {
  import opened Words
  import opened Geometry

  const ADDRESSES_IN_BLOCK: int := 128
  const VERSION_10: int := 0x10

  /** The words fill_segment writes into its input block. */
  datatype Header = Header(
    pass: Word64, lane: Word64, slice: Word64, memoryBlocks: Word64,
    passes: Word64, kind: Type, counter: Word64)

  /** The operations on 1024-byte blocks: the compression function, exclusive or, reading one word. */
  datatype Kernel<!B> = Kernel(
    compress: (B, B) -> B, xor: (B, B) -> B, word: (B, nat) -> Word64,
    input: Header -> B, zero: B)

  type Matrix<B> = seq<seq<B>>

  ghost predicate Shaped<B>(i: Instance, m: Matrix<B>) {
    && |m| == i.lanes
    && forall l | 0 <= l < |m| :: |m[l]| == i.laneLength
  }

  // ---- positions ----

  function StartIndex(pass: nat, slice: nat): nat {
    if pass == 0 && slice == 0 then 2 else 0
  }

  predicate Placed(i: Instance, p: Position, lane: nat) {
    && Valid(i) && lane < i.lanes && p.slice < SYNC_POINTS
    && StartIndex(p.pass, p.slice) <= p.index < i.segmentLength
  }

  function Column(i: Instance, p: Position): (c: nat) {
    SegmentStart(i, p.slice) + p.index
  }

  lemma ColumnInLane(i: Instance, p: Position, lane: nat)
    requires Placed(i, p, lane)
    ensures Column(i, p) < i.laneLength
    ensures 0 <= PreviousColumn(i, p) < i.laneLength
    ensures PreviousColumn(i, p) == if Column(i, p) == 0 then i.laneLength - 1 else Column(i, p) - 1
  {
    SliceCases(i, p.slice);
  }

  predicate DataIndependent(i: Instance, p: Position) {
    i.kind.Argon2i? || (i.kind.Argon2id? && p.pass == 0 && p.slice < SYNC_POINTS / 2)
  }

  // ---- the block a position refers to ----

  /** The 128 address words made from an input block (section 3.4.1.2 of RFC 9106). */
  function Addresses<B>(k: Kernel<B>, h: Header): B {
    k.compress(k.zero, k.compress(k.zero, k.input(h)))
  }

  function HeaderOf(i: Instance, pass: Word32, slice: nat, lane: nat, counter: Word64): Header
    requires lane < i.lanes && slice < SYNC_POINTS
  {
    Header(pass, lane, slice, i.memoryBlocks, i.passes, i.kind, counter)
  }

  function AddressBlock<B>(k: Kernel<B>, i: Instance, p: Position, lane: nat, counter: Word64): B
    requires Placed(i, p, lane)
  {
    Addresses(k, HeaderOf(i, p.pass, p.slice, lane, counter))
  }

  /** The 64-bit value J1 || J2 for the next block, whose predecessor is `prev`. */
  function PseudoRand<B>(k: Kernel<B>, i: Instance, p: Position, lane: nat, prev: B): Word64
    requires Placed(i, p, lane)
  {
    if DataIndependent(i, p) then
      k.word(AddressBlock(k, i, p, lane, p.index / ADDRESSES_IN_BLOCK + 1), p.index % ADDRESSES_IN_BLOCK)
    else
      k.word(prev, 0)
  }

  function ReferenceLane(i: Instance, p: Position, lane: nat, rand: Word64): (r: nat)
    requires Placed(i, p, lane)
    ensures r < i.lanes
  {
    if p.pass == 0 && p.slice == 0 then lane else (rand / TWO_32) % i.lanes
  }

  function ReferenceColumn(i: Instance, p: Position, lane: nat, rand: Word64): (c: nat)
    requires Placed(i, p, lane)
    ensures c < i.laneLength
  {
    var same := ReferenceLane(i, p, lane, rand) == lane;
    IndexAlphaIsNth(i, p, rand % TWO_32, same);
    IndexAlpha(i, p, rand % TWO_32, same)
  }

  /** Version 1.0 always overwrites; later versions exclusive-or from the second pass on. */
  predicate WithXor(i: Instance, p: Position) {
    i.version != VERSION_10 && p.pass != 0
  }

  function NewBlock<B>(k: Kernel<B>, i: Instance, p: Position, prev: B, ref: B, prior: B): B {
    var b := k.compress(prev, ref);
    if WithXor(i, p) then k.xor(b, prior) else b
  }

  // ---- one block, one segment, one slice, one pass, all passes ----

  function Put<B>(m: Matrix<B>, l: nat, c: nat, b: B): Matrix<B>
    requires l < |m| && c < |m[l]|
  {
    m[l := m[l][c := b]]
  }

  /** The blocks a block-step reads: its predecessor, its reference and the block it replaces. */
  datatype Reads<B> = Reads(prev: B, ref: B, prior: B)

  function Fetch<B>(k: Kernel<B>, i: Instance, m: Matrix<B>, p: Position, lane: nat): Reads<B>
    requires Placed(i, p, lane) && Shaped(i, m)
  {
    ColumnInLane(i, p, lane);
    var prev := m[lane][PreviousColumn(i, p)];
    var rand := PseudoRand(k, i, p, lane, prev);
    Reads(prev, m[ReferenceLane(i, p, lane, rand)][ReferenceColumn(i, p, lane, rand)], m[lane][Column(i, p)])
  }

  function Write<B>(k: Kernel<B>, i: Instance, m: Matrix<B>, p: Position, lane: nat, r: Reads<B>): (m': Matrix<B>)
    requires Placed(i, p, lane) && Shaped(i, m)
    ensures Shaped(i, m')
  {
    ColumnInLane(i, p, lane);
    Put(m, lane, Column(i, p), NewBlock(k, i, p, r.prev, r.ref, r.prior))
  }

  function BlockStep<B>(k: Kernel<B>, i: Instance, m: Matrix<B>, p: Position, lane: nat): (m': Matrix<B>)
    requires Placed(i, p, lane) && Shaped(i, m)
    ensures Shaped(i, m')
  {
    Write(k, i, m, p, lane, Fetch(k, i, m, p, lane))
  }

  /** The matrix after fill_segment has built its blocks with index below `n`. */
  function Segment<B>(k: Kernel<B>, i: Instance, m: Matrix<B>, pass: Word32, slice: nat, lane: nat, n: nat)
    : (m': Matrix<B>)
    requires Valid(i) && lane < i.lanes && slice < SYNC_POINTS && n <= i.segmentLength && Shaped(i, m)
    ensures Shaped(i, m')
    decreases i.passes, n
  {
    if n <= StartIndex(pass, slice) then m
    else BlockStep(k, i, Segment(k, i, m, pass, slice, lane, n - 1), Position(pass, slice, n - 1), lane)
  }

  // ---- the same in the terms of sections 3.2 and 3.4 of RFC 9106 ----

  /**
   * Section 3.4.1: for Argon2i, and for Argon2id in the first two slices of pass 0, the value is word index mod 128
   * of the address block with counter index / 128 + 1; otherwise it is the first word of the previous block.
   */
  lemma PseudoRandIs<B>(k: Kernel<B>, i: Instance, p: Position, lane: nat, prev: B)
    requires Placed(i, p, lane)
    ensures i.kind == Argon2i || (i.kind == Argon2id && p.pass == 0 && p.slice < 2) ==>
      var z := k.input(Header(p.pass, lane, p.slice, i.memoryBlocks, i.passes, i.kind, p.index / 128 + 1));
      PseudoRand(k, i, p, lane, prev) == k.word(k.compress(k.zero, k.compress(k.zero, z)), p.index % 128)
    ensures i.kind == Argon2d || (i.kind == Argon2id && (p.pass > 0 || p.slice >= 2)) ==>
      PseudoRand(k, i, p, lane, prev) == k.word(prev, 0)
  {
  }

  /** Section 3.4.2: J2 chooses the lane, J1 the place in W from its newest member backwards. */
  lemma ReferenceIs(i: Instance, p: Position, lane: nat, j1: Word32, j2: Word32)
    requires Placed(i, p, lane)
    ensures var rand := j2 * 0x1_0000_0000 + j1;
      var l := ReferenceLane(i, p, lane, rand);
      var n := ReferenceAreaSize(i, p, l == lane);
      var y := (n * (j1 * j1 / 0x1_0000_0000)) / 0x1_0000_0000;
      && l == (if p.pass == 0 && p.slice == 0 then lane else j2 % i.lanes)
      && 0 <= n - 1 - y < n && ReferenceColumn(i, p, lane, rand) == Nth(i, p, n - 1 - y)
  {
    var rand := j2 * TWO_32 + j1;
    DivModUnique(j1, j2, TWO_32);
    hide IndexAlpha, Nth, ReferenceAreaSize;
    IndexAlphaIsNth(i, p, j1, ReferenceLane(i, p, lane, rand) == lane);
  }

  /** Section 3.2, steps 5 and 6: one block of the matrix changes, to G of its predecessor and its reference. */
  lemma BlockStepIs<B>(k: Kernel<B>, i: Instance, m: Matrix<B>, p: Position, lane: nat)
    requires Placed(i, p, lane) && Shaped(i, m)
    ensures var c := p.slice * i.segmentLength + p.index;
      var before := if c == 0 then i.laneLength - 1 else c - 1;
      && c < i.laneLength
      && var rand := PseudoRand(k, i, p, lane, m[lane][before]);
         var g := k.compress(m[lane][before], m[ReferenceLane(i, p, lane, rand)][ReferenceColumn(i, p, lane, rand)]);
         BlockStep(k, i, m, p, lane) == m[lane := m[lane][c :=
           if p.pass == 0 || i.version == 0x10 then g else k.xor(g, m[lane][c])]]
  {
    hide PseudoRand, ReferenceLane, ReferenceColumn;
    ColumnInLane(i, p, lane);
  }

  /** Lanes below `n` of one slice, in the order of the single-threaded loop. */
  function Slice<B>(k: Kernel<B>, i: Instance, m: Matrix<B>, pass: Word32, slice: nat, n: nat): (m': Matrix<B>)
    requires Valid(i) && n <= i.lanes && slice < SYNC_POINTS && Shaped(i, m)
    ensures Shaped(i, m')
    decreases i.passes, n
  {
    if n == 0 then m
    else Segment(k, i, Slice(k, i, m, pass, slice, n - 1), pass, slice, n - 1, i.segmentLength)
  }

  /** Slices below `n` of one pass. */
  function Pass<B>(k: Kernel<B>, i: Instance, m: Matrix<B>, pass: Word32, n: nat): (m': Matrix<B>)
    requires Valid(i) && n <= SYNC_POINTS && Shaped(i, m)
    ensures Shaped(i, m')
    decreases i.passes, n
  {
    if n == 0 then m
    else Slice(k, i, Pass(k, i, m, pass, n - 1), pass, n - 1, i.lanes)
  }

  /** Passes below `n`: what fill_memory_blocks_st leaves in memory. */
  function Passes<B>(k: Kernel<B>, i: Instance, m: Matrix<B>, n: nat): (m': Matrix<B>)
    requires Valid(i) && n <= i.passes && Shaped(i, m)
    ensures Shaped(i, m')
    decreases i.passes, n
  {
    if n == 0 then m
    else Pass(k, i, Passes(k, i, m, n - 1), n - 1, SYNC_POINTS)
  }
}
