/**
 * fill_segment of ref.c and the fillers of core.c on the flat block array, with every offset in
 * `uint32_t`. Rows views the array as the matrix of Filling.dfy.
 */
module FillSegment {
  import opened Words
  import opened Geometry
  import opened Filling
  import opened Isolation

  // ---- the array as a matrix ----

  function Offset(i: Instance, lane: nat, column: nat): nat {
    lane * i.laneLength + column
  }

  /** No offset into the array needs more than 32 bits. */
  lemma OffsetBound(i: Instance, lane: nat, column: nat)
    requires Valid(i) && lane < i.lanes && column < i.laneLength
    ensures Offset(i, lane, column) < i.memoryBlocks
    ensures (lane + 1) * i.laneLength <= i.memoryBlocks
  {
    MulMonotone(lane + 1, i.lanes, i.laneLength);
    assert (lane + 1) * i.laneLength == lane * i.laneLength + i.laneLength;
  }

  lemma OffsetUnique(i: Instance, lane: nat, column: nat, lane': nat, column': nat)
    requires column < i.laneLength && column' < i.laneLength
    requires Offset(i, lane, column) == Offset(i, lane', column')
    ensures lane == lane' && column == column'
  {
    DivModUnique(column, lane, i.laneLength);
    DivModUnique(column', lane', i.laneLength);
  }

  function CellOf<B>(i: Instance, flat: seq<B>, l: nat, c: nat): B
    requires Valid(i) && |flat| == i.memoryBlocks && l < i.lanes && c < i.laneLength
  {
    OffsetBound(i, l, c);
    flat[Offset(i, l, c)]
  }

  function Row<B>(i: Instance, flat: seq<B>, l: nat): (row: seq<B>)
    requires Valid(i) && |flat| == i.memoryBlocks && l < i.lanes
    ensures |row| == i.laneLength
  {
    seq(i.laneLength, c requires 0 <= c < i.laneLength => CellOf(i, flat, l, c))
  }

  function Rows<B>(i: Instance, flat: seq<B>): (m: Matrix<B>)
    requires Valid(i) && |flat| == i.memoryBlocks
    ensures Shaped(i, m)
  {
    seq(i.lanes, l requires 0 <= l < i.lanes => Row(i, flat, l))
  }

  lemma RowsAt<B>(i: Instance, flat: seq<B>, l: nat, c: nat)
    requires Valid(i) && |flat| == i.memoryBlocks && l < i.lanes && c < i.laneLength
    ensures Offset(i, l, c) < |flat| && Rows(i, flat)[l][c] == flat[Offset(i, l, c)]
  {
    OffsetBound(i, l, c);
  }

  /** Writing one array element writes one matrix cell. */
  lemma RowsUpdate<B>(i: Instance, flat: seq<B>, l: nat, c: nat, b: B)
    requires Valid(i) && |flat| == i.memoryBlocks && l < i.lanes && c < i.laneLength
    ensures Offset(i, l, c) < |flat|
    ensures Rows(i, flat[Offset(i, l, c) := b]) == Put(Rows(i, flat), l, c, b)
  {
    OffsetBound(i, l, c);
    var flat' := flat[Offset(i, l, c) := b];
    var m, m' := Put(Rows(i, flat), l, c, b), Rows(i, flat');
    forall l': nat | l' < i.lanes
      ensures m'[l'] == m[l']
    {
      forall c': nat | c' < i.laneLength
        ensures m'[l'][c'] == m[l'][c']
      {
        RowsAt(i, flat, l', c');
        RowsAt(i, flat', l', c');
        if Offset(i, l', c') == Offset(i, l, c) {
          OffsetUnique(i, l', c', l, c);
        }
      }
    }
  }

  // ---- the offsets fill_segment keeps ----

  /** Where `curr_offset` and `prev_offset` stand at the head of the loop. */
  predicate OffsetsAt(i: Instance, p: Position, lane: nat, curr: nat, prev: nat) {
    var column := Column(i, p);
    && curr == Offset(i, lane, column)
    && (if column == 0 then prev == curr + i.laneLength - 1 else column == 1 || prev == curr - 1)
  }

  lemma ColumnOf(i: Instance, lane: nat, column: nat)
    requires column < i.laneLength
    ensures Offset(i, lane, column) % i.laneLength == column
  {
    DivModUnique(column, lane, i.laneLength);
  }

  /** After the rotation test, `prev_offset` is the cyclic predecessor of `curr_offset` in its lane. */
  lemma PreviousOffset(i: Instance, p: Position, lane: nat, curr: nat, prev: nat)
    requires Placed(i, p, lane) && OffsetsAt(i, p, lane, curr, prev)
    ensures 0 <= PreviousColumn(i, p) < i.laneLength
    ensures (if curr % i.laneLength == 1 then curr - 1 else prev) == Offset(i, lane, PreviousColumn(i, p))
    ensures curr < i.memoryBlocks && Offset(i, lane, PreviousColumn(i, p)) < i.memoryBlocks
  {
    ColumnInLane(i, p, lane);
    ColumnOf(i, lane, Column(i, p));
    OffsetBound(i, lane, Column(i, p));
    OffsetBound(i, lane, PreviousColumn(i, p));
  }

  /** The counter of the address block in use before index n is looked at. */
  function CounterBefore(n: nat): nat {
    (n + ADDRESSES_IN_BLOCK - 1) / ADDRESSES_IN_BLOCK
  }

  lemma CounterStep(n: nat)
    ensures n % ADDRESSES_IN_BLOCK == 0 ==> n / ADDRESSES_IN_BLOCK == CounterBefore(n)
    ensures n % ADDRESSES_IN_BLOCK != 0 ==> n / ADDRESSES_IN_BLOCK + 1 == CounterBefore(n)
    ensures CounterBefore(n + 1) == n / ADDRESSES_IN_BLOCK + 1
    ensures CounterBefore(n) <= n
  {
  }

  method NextAddresses<B>(k: Kernel<B>, input: Header) returns (address: B, bumped: Header)
    ensures bumped == input.(counter := U64(input.counter + 1))
    ensures address == Addresses(k, bumped)
  {
    bumped := input.(counter := U64(input.counter + 1));
    address := k.compress(k.zero, k.input(bumped));
    address := k.compress(k.zero, address);
  }

  /** What fill_segment reads from the array for one block. */
  function FetchFlat<B>(k: Kernel<B>, i: Instance, flat: seq<B>, p: Position, lane: nat): Reads<B>
    requires Placed(i, p, lane) && |flat| == i.memoryBlocks
  {
    ColumnInLane(i, p, lane);
    var prev := CellOf(i, flat, lane, PreviousColumn(i, p));
    var rand := PseudoRand(k, i, p, lane, prev);
    Reads(prev, CellOf(i, flat, ReferenceLane(i, p, lane, rand), ReferenceColumn(i, p, lane, rand)),
      CellOf(i, flat, lane, Column(i, p)))
  }

  lemma FetchRows<B>(k: Kernel<B>, i: Instance, flat: seq<B>, p: Position, lane: nat)
    requires Placed(i, p, lane) && |flat| == i.memoryBlocks
    ensures Fetch(k, i, Rows(i, flat), p, lane) == FetchFlat(k, i, flat, p, lane)
  {
    ColumnInLane(i, p, lane);
    RowsAt(i, flat, lane, PreviousColumn(i, p));
    RowsAt(i, flat, lane, Column(i, p));
    var rand := PseudoRand(k, i, p, lane, CellOf(i, flat, lane, PreviousColumn(i, p)));
    RowsAt(i, flat, ReferenceLane(i, p, lane, rand), ReferenceColumn(i, p, lane, rand));
  }

  lemma StoreRows<B>(k: Kernel<B>, i: Instance, flat: seq<B>, p: Position, lane: nat, b: B)
    requires Placed(i, p, lane) && |flat| == i.memoryBlocks
    requires var got := FetchFlat(k, i, flat, p, lane); b == NewBlock(k, i, p, got.prev, got.ref, got.prior)
    ensures Offset(i, lane, Column(i, p)) < |flat|
    ensures Rows(i, flat[Offset(i, lane, Column(i, p)) := b]) == BlockStep(k, i, Rows(i, flat), p, lane)
  {
    FetchRows(k, i, flat, p, lane);
    ColumnInLane(i, p, lane);
    RowsUpdate(i, flat, lane, Column(i, p), b);
  }

  /** The body of the loop from the pseudo-random value on. */
  method StoreBlock<B>(k: Kernel<B>, i: Instance, memory: array<B>, p: Position, lane: Word32,
    prev: Word32, curr: Word32, rand: Word64)
    requires Placed(i, p, lane) && memory.Length == i.memoryBlocks
    requires prev < i.memoryBlocks && prev == Offset(i, lane, PreviousColumn(i, p))
    requires curr < i.memoryBlocks && curr == Offset(i, lane, Column(i, p))
    requires rand == PseudoRand(k, i, p, lane, memory[prev])
    modifies memory
    ensures Rows(i, memory[..]) == BlockStep(k, i, Rows(i, old(memory[..])), p, lane)
  {
    ghost var flat := memory[..];
    var refLane := (rand / TWO_32) % i.lanes;
    if p.pass == 0 && p.slice == 0 {
      refLane := lane;
    }
    var refIndex := IndexAlpha(i, p, rand % TWO_32, refLane == lane);
    ghost var got := FetchFlat(k, i, flat, p, lane);
    hide Offset, IndexAlpha, BlockStep, Rows;
    assert refLane == ReferenceLane(i, p, lane, rand) && refIndex == ReferenceColumn(i, p, lane, rand);
    var ref := ReadBlock(i, memory, refLane, refIndex);
    assert got == Reads(memory[prev], ref, memory[curr]);
    if i.version == VERSION_10 {
      memory[curr] := k.compress(memory[prev], ref);
    } else if p.pass == 0 {
      memory[curr] := k.compress(memory[prev], ref);
    } else {
      memory[curr] := k.xor(k.compress(memory[prev], ref), memory[curr]);
    }
    StoreRows(k, i, flat, p, lane, memory[curr]);
    assert memory[..] == flat[curr := memory[curr]];
  }

  /** `instance->memory + instance->lane_length * ref_lane + ref_index`. */
  method ReadBlock<B>(i: Instance, memory: array<B>, lane: nat, column: nat) returns (b: B)
    requires Valid(i) && memory.Length == i.memoryBlocks && lane < i.lanes && column < i.laneLength
    ensures b == CellOf(i, memory[..], lane, column)
  {
    OffsetBound(i, lane, column);
    b := memory[i.laneLength * lane + column];
  }

  /** Before index n is looked at: the input block's counter, and the address block last made from it. */
  ghost predicate AddressesReady<B>(k: Kernel<B>, i: Instance, p: Position, lane: nat, input: Header, address: B) {
    && lane < i.lanes && p.slice < SYNC_POINTS
    && CounterBefore(p.index) <= p.index
    && input == HeaderOf(i, p.pass, p.slice, lane, CounterBefore(p.index))
    && (p.index > 0 ==> address == Addresses(k, input))
  }

  /** Making a fresh address block when the index is a multiple of 128, then picking one word of it. */
  method NextIndependent<B>(k: Kernel<B>, i: Instance, p: Position, lane: Word32, input: Header, address: B)
    returns (rand: Word64, input': Header, address': B)
    requires Placed(i, p, lane) && DataIndependent(i, p)
    requires AddressesReady(k, i, p, lane, input, address)
    ensures forall prev: B :: rand == PseudoRand(k, i, p, lane, prev)
    ensures p.index + 1 < TWO_32 ==> AddressesReady(k, i, p.(index := p.index + 1), lane, input', address')
  {
    hide Addresses;
    input', address' := input, address;
    CounterStep(p.index);
    if p.index % ADDRESSES_IN_BLOCK == 0 {
      address', input' := NextAddresses(k, input);
    }
    assert address' == AddressBlock(k, i, p, lane, p.index / ADDRESSES_IN_BLOCK + 1);
    rand := k.word(address', p.index % ADDRESSES_IN_BLOCK);
  }

  lemma OffsetsAdvance(i: Instance, p: Position, lane: nat, curr: nat, prev: nat)
    requires Placed(i, p, lane)
    requires curr == Offset(i, lane, Column(i, p)) && prev == Offset(i, lane, PreviousColumn(i, p))
    ensures p.index + 1 < TWO_32 && curr + 1 < TWO_32 && prev + 1 < TWO_32
    ensures OffsetsAt(i, p.(index := p.index + 1), lane, curr + 1, prev + 1)
  {
    ColumnInLane(i, p, lane);
    OffsetBound(i, lane, Column(i, p));
    OffsetBound(i, lane, PreviousColumn(i, p));
  }

  lemma FirstOffset(i: Instance, p: Position, lane: nat)
    requires Valid(i) && lane < i.lanes && p.slice < SYNC_POINTS && p.index <= i.segmentLength
    requires p.index == StartIndex(p.pass, p.slice)
    ensures lane * i.laneLength + p.slice * i.segmentLength + p.index < TWO_32
    ensures var curr := lane * i.laneLength + p.slice * i.segmentLength + p.index;
      && curr % i.laneLength == Column(i, p) < i.laneLength
      && curr == Offset(i, lane, Column(i, p)) && curr + i.laneLength < TWO_32 + Column(i, p)
      && (Column(i, p) > 0 ==> curr > 0)
  {
    SliceCases(i, p.slice);
    ColumnOf(i, lane, Column(i, p));
    OffsetBound(i, lane, Column(i, p));
  }

  /** The two offsets before the loop, computed in `uint32_t`. */
  method StartOffsets(i: Instance, p: Position, lane: Word32) returns (curr: Word32, prev: Word32)
    requires Valid(i) && lane < i.lanes && p.slice < SYNC_POINTS && p.index <= i.segmentLength
    requires p.index == StartIndex(p.pass, p.slice)
    ensures OffsetsAt(i, p, lane, curr, prev)
  {
    FirstOffset(i, p, lane);
    curr := U32(lane * i.laneLength + p.slice * i.segmentLength + p.index);
    if curr % i.laneLength == 0 {
      prev := U32(curr + i.laneLength - 1);
    } else {
      prev := U32(curr as int - 1);
    }
  }

  lemma SegmentBegin<B>(k: Kernel<B>, i: Instance, m: Matrix<B>, pass: Word32, slice: nat, lane: nat)
    requires Valid(i) && slice < SYNC_POINTS && lane < i.lanes && Shaped(i, m)
    ensures StartIndex(pass, slice) <= i.segmentLength
    ensures Segment(k, i, m, pass, slice, lane, StartIndex(pass, slice)) == m
  {
  }

  /** One turn of the loop in fill_segment. */
  method BuildBlock<B>(k: Kernel<B>, i: Instance, memory: array<B>, p: Position, lane: Word32,
    independent: bool, curr: Word32, prev: Word32, input: Header, address: B)
    returns (prev': Word32, input': Header, address': B)
    requires Placed(i, p, lane) && memory.Length == i.memoryBlocks && OffsetsAt(i, p, lane, curr, prev)
    requires independent == DataIndependent(i, p)
    requires independent ==> AddressesReady(k, i, p, lane, input, address)
    modifies memory
    ensures Rows(i, memory[..]) == BlockStep(k, i, Rows(i, old(memory[..])), p, lane)
    ensures p.index + 1 < TWO_32 && curr + 1 < TWO_32 && prev' + 1 < TWO_32
    ensures OffsetsAt(i, p.(index := p.index + 1), lane, curr + 1, prev' + 1)
    ensures independent ==> AddressesReady(k, i, p.(index := p.index + 1), lane, input', address')
  {
    prev', input', address' := prev, input, address;
    PreviousOffset(i, p, lane, curr, prev);
    if curr % i.laneLength == 1 {
      prev' := U32(curr as int - 1);
    }
    OffsetsAdvance(i, p, lane, curr, prev');
    hide Rows, BlockStep, AddressesReady, Offset, Column, PreviousColumn;
    var rand: Word64;
    if independent {
      rand, input', address' := NextIndependent(k, i, p, lane, input, address);
      assert rand == PseudoRand(k, i, p, lane, memory[prev']);
    } else {
      rand := k.word(memory[prev'], 0);
    }
    StoreBlock(k, i, memory, p, lane, prev', curr, rand);
  }

  /** The starting index, and the first address block where the loop would not make it. */
  method StartAddresses<B>(k: Kernel<B>, i: Instance, pass: Word32, lane: Word32, slice: Word32, independent: bool)
    returns (index: Word32, input: Header, address: B)
    requires lane < i.lanes && slice < SYNC_POINTS
    ensures index == StartIndex(pass, slice)
    ensures independent ==> AddressesReady(k, i, Position(pass, slice, index), lane, input, address)
  {
    index, input, address := 0, HeaderOf(i, pass, slice, lane, 0), k.zero;
    if pass == 0 && slice == 0 {
      index := 2;
      if independent {
        address, input := NextAddresses(k, input);
      }
    }
  }

  /** fill_segment builds exactly the blocks of its own segment that the specification builds. */
  method FillSegment<B>(k: Kernel<B>, i: Instance, memory: array<B>, pass: Word32, lane: Word32, slice: Word32)
    requires Valid(i) && memory.Length == i.memoryBlocks && lane < i.lanes && slice < SYNC_POINTS
    modifies memory
    ensures Rows(i, memory[..]) == Segment(k, i, Rows(i, old(memory[..])), pass, slice, lane, i.segmentLength)
  {
    hide Rows, Segment, OffsetsAt, AddressesReady, BlockStep;
    ghost var base := Rows(i, memory[..]);
    SegmentBegin(k, i, base, pass, slice, lane);
    var independent := i.kind.Argon2i? || (i.kind.Argon2id? && pass == 0 && slice < SYNC_POINTS / 2);
    var index: Word32, input, address := StartAddresses(k, i, pass, lane, slice, independent);
    var curr: Word32, prev: Word32 := StartOffsets(i, Position(pass, slice, index), lane);
    while index < i.segmentLength
      invariant StartIndex(pass, slice) <= index <= i.segmentLength
      invariant OffsetsAt(i, Position(pass, slice, index), lane, curr, prev)
      invariant independent ==> AddressesReady(k, i, Position(pass, slice, index), lane, input, address)
      invariant Rows(i, memory[..]) == Segment(k, i, base, pass, slice, lane, index)
    {
      var p := Position(pass, slice, index);
      SegmentStep(k, i, base, pass, slice, lane, index);
      prev, input, address := BuildBlock(k, i, memory, p, lane, independent, curr, prev, input, address);
      index, curr, prev := index + 1, curr + 1, prev + 1;
    }
  }

  lemma SliceStep<B>(k: Kernel<B>, i: Instance, m: Matrix<B>, pass: Word32, slice: nat, n: nat)
    requires Valid(i) && n < i.lanes && slice < SYNC_POINTS && Shaped(i, m)
    ensures Slice(k, i, m, pass, slice, 0) == m
    ensures Slice(k, i, m, pass, slice, n + 1)
         == Segment(k, i, Slice(k, i, m, pass, slice, n), pass, slice, n, i.segmentLength)
  {
  }

  lemma PassStep<B>(k: Kernel<B>, i: Instance, m: Matrix<B>, pass: Word32, n: nat)
    requires Valid(i) && n < SYNC_POINTS && Shaped(i, m)
    ensures Pass(k, i, m, pass, 0) == m
    ensures Pass(k, i, m, pass, n + 1) == Slice(k, i, Pass(k, i, m, pass, n), pass, n, i.lanes)
  {
  }

  lemma PassesStep<B>(k: Kernel<B>, i: Instance, m: Matrix<B>, n: nat)
    requires Valid(i) && n < i.passes && Shaped(i, m)
    ensures Passes(k, i, m, 0) == m
    ensures Passes(k, i, m, n + 1) == Pass(k, i, Passes(k, i, m, n), n, SYNC_POINTS)
  {
  }

  /** fill_memory_blocks_st computes what the specification's passes compute. */
  method FillMemoryBlocksSt<B>(k: Kernel<B>, i: Instance, memory: array<B>)
    requires Valid(i) && memory.Length == i.memoryBlocks
    modifies memory
    ensures Rows(i, memory[..]) == Passes(k, i, Rows(i, old(memory[..])), i.passes)
  {
    hide Rows, Segment, Slice, Pass, Passes;
    ghost var base := Rows(i, memory[..]);
    PassesStep(k, i, base, 0);
    var r: Word32 := 0;
    while r < i.passes
      invariant r <= i.passes
      invariant Rows(i, memory[..]) == Passes(k, i, base, r)
    {
      ghost var before := Rows(i, memory[..]);
      PassesStep(k, i, base, r);
      PassStep(k, i, before, r, 0);
      var s: Word32 := 0;
      while s < SYNC_POINTS
        invariant s <= SYNC_POINTS
        invariant Rows(i, memory[..]) == Pass(k, i, before, r, s)
      {
        ghost var here := Rows(i, memory[..]);
        PassStep(k, i, before, r, s);
        SliceStep(k, i, here, r, s, 0);
        var l: Word32 := 0;
        while l < i.lanes
          invariant l <= i.lanes
          invariant Rows(i, memory[..]) == Slice(k, i, here, r, s, l)
        {
          SliceStep(k, i, here, r, s, l);
          FillSegment(k, i, memory, r, l, s);
          l := l + 1;
        }
        s := s + 1;
      }
      r := r + 1;
    }
  }
}
