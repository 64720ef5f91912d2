/**
 * The threads of Schedule.dfy word by word. A lane reads the blocks it needs one 64-bit word at a time, in any
 * order, and writes its block one word at a time, scratch values included, as fill_block does when it first
 * copies and then exclusive-ors; other threads may act between any two of these. Blocks may thus be seen
 * half written, and the theorem is that no lane ever looks at one.
 */
module WordSchedule {
  import opened Options
  import opened Words
  import opened Geometry
  import opened Filling
  import opened Isolation
  import FB = FillBlock
  import S = Schedule

  type Block = FB.Block

  /** The words of a block a lane has read so far. */
  type Partial = map<nat, Word64>

  datatype Lane =
    | Unborn
    | Reading(next: nat, prev: Partial, ref: Partial, prior: Partial)
    | Writing(next: nat, block: Block, written: set<nat>)
    | Exited
    | Joined

  datatype State = State(mem: Matrix<Block>, pass: Word32, slice: nat, phase: S.Phase, lanes: seq<Lane>)

  /** `Control` stands for the actions without access to memory: those of the main thread, and exits. */
  datatype Action =
    | Control(action: S.Action)
    | ReadPrev(lane: nat, n: nat) | ReadRef(lane: nat, n: nat) | ReadPrior(lane: nat, n: nat)
    | Compute(lane: nat)
    | Scratch(lane: nat, n: nat, word: Word64) | WriteWord(lane: nat, n: nat)
    | Stored(lane: nat)

  const NO_READS: Reads<Block> := Reads(FB.ZERO_BLOCK, FB.ZERO_BLOCK, FB.ZERO_BLOCK)

  /** What the main thread can see of a lane. */
  function Outside(t: Lane): S.Thread<Block> {
    match t
    case Unborn => S.Unborn
    case Reading(n, _, _, _) => S.Running(n, None)
    case Writing(n, _, _) => S.Running(n, Some(NO_READS))
    case Exited => S.Exited
    case Joined => S.Joined
  }

  function Outline(s: State): S.State<Block> {
    S.State(s.mem, s.pass, s.slice, s.phase,
      seq(|s.lanes|, l requires 0 <= l < |s.lanes| => Outside(s.lanes[l])))
  }

  function Beginning(n: nat): Lane {
    Reading(n, map[], map[], map[])
  }

  /** A lane after an action of the main thread that leaves it as `t`. */
  function Followed(was: Lane, t: S.Thread<Block>): Lane {
    if t == Outside(was) then was
    else match t
      case Unborn => Unborn
      case Running(n, _) => Beginning(n)
      case Exited => Exited
      case Joined => Joined
  }

  function Follow(s: State, o: S.State<Block>): State
    requires |o.threads| == |s.lanes|
  {
    State(s.mem, o.pass, o.slice, o.phase,
      seq(|s.lanes|, l requires 0 <= l < |s.lanes| => Followed(s.lanes[l], o.threads[l])))
  }

  function Initial(i: Instance, m: Matrix<Block>): State {
    State(m, 0, 0, S.Creating(0, false), seq(i.lanes, l => Unborn))
  }

  ghost predicate WellFormed(i: Instance, s: State) {
    S.WellFormed(i, Outline(s))
  }

  function At(s: State, l: nat): Position
    requires l < |s.lanes| && (s.lanes[l].Reading? || s.lanes[l].Writing?) && s.lanes[l].next < TWO_32
  {
    Position(s.pass, s.slice, s.lanes[l].next)
  }

  ghost predicate ReadingAt(i: Instance, s: State, l: nat)
    requires WellFormed(i, s)
  {
    l < i.lanes && s.lanes[l].Reading? && s.lanes[l].next < i.segmentLength && Placed(i, At(s, l), l)
  }

  ghost predicate WritingAt(i: Instance, s: State, l: nat)
    requires WellFormed(i, s)
  {
    l < i.lanes && s.lanes[l].Writing? && s.lanes[l].next < i.segmentLength && Placed(i, At(s, l), l)
  }

  predicate Full(p: Partial) {
    forall n | 0 <= n < FB.WORDS :: n in p
  }

  function Whole(p: Partial): (b: Block)
    requires Full(p)
  {
    seq(FB.WORDS, n requires 0 <= n < FB.WORDS => p[n])
  }

  /** The pseudo-random value is known without memory, or from the first word of the previous block. */
  ghost predicate RandKnown(i: Instance, p: Position, prev: Partial) {
    DataIndependent(i, p) || 0 in prev
  }

  function RandFrom(k: Kernel<Block>, i: Instance, p: Position, lane: nat, prev: Partial): Word64
    requires Placed(i, p, lane)
  {
    PseudoRand(k, i, p, lane, FB.ZERO_BLOCK[0 := if 0 in prev then prev[0] else 0])
  }

  /** The row and column of the block a pseudo-random value refers to. */
  function RefCell(i: Instance, p: Position, lane: nat, rand: Word64): (cell: (nat, nat))
    requires Placed(i, p, lane)
    ensures cell.0 < i.lanes && cell.1 < i.laneLength
  {
    (ReferenceLane(i, p, lane, rand), ReferenceColumn(i, p, lane, rand))
  }

  ghost predicate Enabled(i: Instance, s: State, a: Action)
    requires WellFormed(i, s)
  {
    match a
    case Control(c) => !c.Load? && !c.Store? && S.Enabled(i, Outline(s), c)
    case ReadPrev(l, n) => ReadingAt(i, s, l) && n < FB.WORDS
    case ReadRef(l, n) => ReadingAt(i, s, l) && n < FB.WORDS && RandKnown(i, At(s, l), s.lanes[l].prev)
    case ReadPrior(l, n) => ReadingAt(i, s, l) && n < FB.WORDS
    case Compute(l) =>
      && ReadingAt(i, s, l) && Full(s.lanes[l].prev) && Full(s.lanes[l].ref)
      && (WithXor(i, At(s, l)) ==> Full(s.lanes[l].prior))
    case Scratch(l, n, _) => WritingAt(i, s, l) && n < FB.WORDS
    case WriteWord(l, n) => WritingAt(i, s, l) && n < FB.WORDS
    case Stored(l) => WritingAt(i, s, l) && forall n | 0 <= n < FB.WORDS :: n in s.lanes[l].written
  }

  function SetLane(s: State, l: nat, t: Lane): State
    requires l < |s.lanes|
  {
    s.(lanes := s.lanes[l := t])
  }

  function PutWord(m: Matrix<Block>, l: nat, c: nat, n: nat, word: Word64): Matrix<Block>
    requires l < |m| && c < |m[l]| && n < FB.WORDS
  {
    Put(m, l, c, m[l][c][n := word])
  }

  /** The block a lane computes from the words it has read. */
  function Computed(k: Kernel<Block>, i: Instance, p: Position, t: Lane): Block
    requires t.Reading? && Full(t.prev) && Full(t.ref) && (WithXor(i, p) ==> Full(t.prior))
  {
    NewBlock(k, i, p, Whole(t.prev), Whole(t.ref), if WithXor(i, p) then Whole(t.prior) else FB.ZERO_BLOCK)
  }

  ghost function Apply(k: Kernel<Block>, i: Instance, s: State, a: Action): (s': State)
    requires WellFormed(i, s) && Enabled(i, s, a)
    ensures WellFormed(i, s')
  {
    match a
    case Control(c) => Follow(s, S.Apply(k, i, Outline(s), c))
    case ReadPrev(l, n) =>
      ColumnInLane(i, At(s, l), l);
      var t := s.lanes[l];
      SetLane(s, l, t.(prev := t.prev[n := s.mem[l][PreviousColumn(i, At(s, l))][n]]))
    case ReadRef(l, n) =>
      var t := s.lanes[l];
      var cell := RefCell(i, At(s, l), l, RandFrom(k, i, At(s, l), l, t.prev));
      SetLane(s, l, t.(ref := t.ref[n := s.mem[cell.0][cell.1][n]]))
    case ReadPrior(l, n) =>
      ColumnInLane(i, At(s, l), l);
      var t := s.lanes[l];
      SetLane(s, l, t.(prior := t.prior[n := s.mem[l][Column(i, At(s, l))][n]]))
    case Compute(l) =>
      SetLane(s, l, Writing(s.lanes[l].next, Computed(k, i, At(s, l), s.lanes[l]), {}))
    case Scratch(l, n, word) =>
      ColumnInLane(i, At(s, l), l);
      var t := s.lanes[l];
      SetLane(s, l, t.(written := t.written - {n})).(mem := PutWord(s.mem, l, Column(i, At(s, l)), n, word))
    case WriteWord(l, n) =>
      ColumnInLane(i, At(s, l), l);
      var t := s.lanes[l];
      SetLane(s, l, t.(written := t.written + {n})).(mem := PutWord(s.mem, l, Column(i, At(s, l)), n, t.block[n]))
    case Stored(l) => SetLane(s, l, Beginning(s.lanes[l].next + 1))
  }

  ghost predicate Runs(k: Kernel<Block>, i: Instance, s: State, acts: seq<Action>, t: State)
    requires WellFormed(i, s)
    decreases |acts|
  {
    if acts == [] then s == t
    else Enabled(i, s, acts[0]) && Runs(k, i, Apply(k, i, s, acts[0]), acts[1..], t)
  }

  // ---- every word-by-word run follows a run of Schedule.dfy ----

  /** The words of `p` are those of `b`. */
  predicate Agrees(p: Partial, b: Block) {
    forall n | n in p :: n < FB.WORDS && p[n] == b[n]
  }

  /** The pseudo-random value is made from the first word of a block. */
  ghost predicate UsesFirstWord(k: Kernel<Block>) {
    forall b: Block :: k.word(b, 0) == b[0]
  }

  /** What a reading lane has gathered so far is found whole in the memory `m`. */
  ghost predicate Gathered(k: Kernel<Block>, i: Instance, m: Matrix<Block>, p: Position, lane: nat, t: Lane)
    requires Placed(i, p, lane) && Shaped(i, m) && t.Reading?
  {
    ColumnInLane(i, p, lane);
    var prev := m[lane][PreviousColumn(i, p)];
    var cell := RefCell(i, p, lane, PseudoRand(k, i, p, lane, prev));
    && Agrees(t.prev, prev) && Agrees(t.prior, m[lane][Column(i, p)]) && Agrees(t.ref, m[cell.0][cell.1])
  }

  /** The lane does what its thread does in the run of whole blocks. */
  ghost predicate LaneFollows(k: Kernel<Block>, i: Instance, s: State, a: S.State<Block>, l: nat)
    requires WellFormed(i, s) && S.WellFormed(i, a) && l < i.lanes
    requires s.pass == a.pass && s.slice == a.slice
  {
    match s.lanes[l]
    case Unborn => a.threads[l].Unborn?
    case Reading(n, _, _, _) =>
      && a.threads[l] == S.Running(n, None)
      && (ReadingAt(i, s, l) ==> Gathered(k, i, a.mem, At(s, l), l, s.lanes[l]))
    case Writing(n, block, _) =>
      && WritingAt(i, s, l) && a.threads[l].Running? && a.threads[l].next == n && a.threads[l].fetched.Some?
      && var r := a.threads[l].fetched.value;
         block == NewBlock(k, i, At(s, l), r.prev, r.ref, r.prior)
    case Exited => a.threads[l].Exited?
    case Joined => a.threads[l].Joined?
  }

  /** Memory is that of the run of whole blocks, except where a lane is in the middle of writing. */
  ghost predicate CellFollows(i: Instance, s: State, a: S.State<Block>, l: nat, c: nat)
    requires WellFormed(i, s) && S.WellFormed(i, a) && l < i.lanes && c < i.laneLength
  {
    if WritingAt(i, s, l) && c == Column(i, At(s, l)) then
      forall n | 0 <= n < FB.WORDS && n in s.lanes[l].written :: s.mem[l][c][n] == s.lanes[l].block[n]
    else s.mem[l][c] == a.mem[l][c]
  }

  ghost predicate Follows(k: Kernel<Block>, i: Instance, s: State, a: S.State<Block>) {
    && WellFormed(i, s) && S.WellFormed(i, a)
    && s.pass == a.pass && s.slice == a.slice && s.phase == a.phase
    && (forall l: nat | l < i.lanes :: LaneFollows(k, i, s, a, l))
    && (forall l: nat, c: nat | l < i.lanes && c < i.laneLength :: CellFollows(i, s, a, l, c))
  }

  lemma FromPrev(k: Kernel<Block>, i: Instance, p: Position, lane: nat, prev: Partial, b: Block)
    requires Placed(i, p, lane) && UsesFirstWord(k) && Agrees(prev, b) && RandKnown(i, p, prev)
    ensures RandFrom(k, i, p, lane, prev) == PseudoRand(k, i, p, lane, b)
  {
  }

  /** No cell a reading lane looks at is being written. */
  lemma ReadsNothingTorn(k: Kernel<Block>, i: Instance, s: State, a: S.State<Block>, l: nat, rand: Word64)
    requires Follows(k, i, s, a) && ReadingAt(i, s, l)
    ensures var p := At(s, l);
      && 0 <= PreviousColumn(i, p) < i.laneLength && Column(i, p) < i.laneLength
      && s.mem[l][PreviousColumn(i, p)] == a.mem[l][PreviousColumn(i, p)]
      && s.mem[l][Column(i, p)] == a.mem[l][Column(i, p)]
      && var cell := RefCell(i, p, l, rand);
         s.mem[cell.0][cell.1] == a.mem[cell.0][cell.1]
  {
    hide LaneFollows, ReferenceLane, ReferenceColumn, PreviousColumn, Column;
    var p := At(s, l);
    ColumnInLane(i, p, l);
    var cell := RefCell(i, p, l, rand);
    assert CellFollows(i, s, a, l, PreviousColumn(i, p));
    assert CellFollows(i, s, a, l, Column(i, p));
    assert CellFollows(i, s, a, cell.0, cell.1);
    if cell.0 != l && WritingAt(i, s, cell.0) {
      SliceIsolation(i, p, l, rand, At(s, cell.0), cell.0);
    }
  }

  /** A lane not acted on, over the same whole blocks. */
  lemma LaneKept(
    k: Kernel<Block>, i: Instance, s: State, a: S.State<Block>, s': State, a': S.State<Block>, l: nat)
    requires Follows(k, i, s, a) && WellFormed(i, s') && S.WellFormed(i, a') && l < i.lanes
    requires s'.pass == s.pass == a'.pass && s'.slice == s.slice == a'.slice && a'.mem == a.mem
    requires s'.lanes[l] == s.lanes[l] && a'.threads[l] == a.threads[l]
    ensures LaneFollows(k, i, s', a', l)
  {
    assert LaneFollows(k, i, s, a, l);
  }

  lemma CellKept(
    k: Kernel<Block>, i: Instance, s: State, a: S.State<Block>, s': State, a': S.State<Block>, l: nat, c: nat)
    requires Follows(k, i, s, a) && WellFormed(i, s') && S.WellFormed(i, a') && l < i.lanes && c < i.laneLength
    requires s'.pass == s.pass && s'.slice == s.slice
    requires s'.lanes[l] == s.lanes[l] || (!WritingAt(i, s, l) && !WritingAt(i, s', l))
    requires s'.mem[l][c] == s.mem[l][c] && a'.mem[l][c] == a.mem[l][c]
    ensures CellFollows(i, s', a', l, c)
  {
    assert CellFollows(i, s, a, l, c);
  }

  lemma ReadFollows(k: Kernel<Block>, i: Instance, s: State, a: S.State<Block>, act: Action)
    requires Follows(k, i, s, a) && Enabled(i, s, act) && UsesFirstWord(k)
    requires act.ReadPrev? || act.ReadRef? || act.ReadPrior?
    ensures Follows(k, i, Apply(k, i, s, act), a)
  {
    hide PseudoRand, PreviousColumn, Column, ReferenceLane, ReferenceColumn, RefCell, UsesFirstWord;
    var l, s', p := act.lane, Apply(k, i, s, act), At(s, act.lane);
    ColumnInLane(i, p, l);
    var prev := a.mem[l][PreviousColumn(i, p)];
    var rand := PseudoRand(k, i, p, l, prev);
    assert LaneFollows(k, i, s, a, l);
    ReadsNothingTorn(k, i, s, a, l, rand);
    if act.ReadRef? {
      FromPrev(k, i, p, l, s.lanes[l].prev, prev);
    }
    assert LaneFollows(k, i, s', a, l);
    forall j: nat | j < i.lanes && j != l
      ensures LaneFollows(k, i, s', a, j)
    {
      LaneKept(k, i, s, a, s', a, j);
    }
    forall j: nat, c: nat | j < i.lanes && c < i.laneLength
      ensures CellFollows(i, s', a, j, c)
    {
      CellKept(k, i, s, a, s', a, j, c);
    }
  }

  lemma WholeIs(p: Partial, b: Block)
    requires Full(p) && Agrees(p, b)
    ensures Whole(p) == b
  {
  }

  /** A lane that has read all its words has read what its thread fetches whole. */
  lemma ComputedIs(k: Kernel<Block>, i: Instance, m: Matrix<Block>, p: Position, l: nat, t: Lane)
    requires Placed(i, p, l) && Shaped(i, m) && t.Reading? && Gathered(k, i, m, p, l, t)
    requires Full(t.prev) && Full(t.ref) && (WithXor(i, p) ==> Full(t.prior))
    ensures var r := Fetch(k, i, m, p, l); Computed(k, i, p, t) == NewBlock(k, i, p, r.prev, r.ref, r.prior)
  {
    hide Full, Whole, Agrees, PseudoRand, ReferenceLane, ReferenceColumn, PreviousColumn, Column, WithXor;
    var r := Fetch(k, i, m, p, l);
    WholeIs(t.prev, r.prev);
    WholeIs(t.ref, r.ref);
    if WithXor(i, p) {
      WholeIs(t.prior, r.prior);
    }
  }

  lemma ComputeFollows(k: Kernel<Block>, i: Instance, s: State, a: S.State<Block>, l: nat)
    requires Follows(k, i, s, a) && Enabled(i, s, Compute(l))
    ensures S.Enabled(i, a, S.Load(l)) && Follows(k, i, Apply(k, i, s, Compute(l)), S.Apply(k, i, a, S.Load(l)))
  {
    hide Fetch, Computed, Gathered, NewBlock, Full;
    assert LaneFollows(k, i, s, a, l);
    var s', a', p := Apply(k, i, s, Compute(l)), S.Apply(k, i, a, S.Load(l)), At(s, l);
    ComputedIs(k, i, a.mem, p, l, s.lanes[l]);
    assert LaneFollows(k, i, s', a', l);
    forall j: nat | j < i.lanes && j != l
      ensures LaneFollows(k, i, s', a', j)
    {
      LaneKept(k, i, s, a, s', a', j);
    }
    forall j: nat, c: nat | j < i.lanes && c < i.laneLength
      ensures CellFollows(i, s', a', j, c)
    {
      assert CellFollows(i, s, a, j, c);
    }
  }

  lemma WriteFollows(k: Kernel<Block>, i: Instance, s: State, a: S.State<Block>, act: Action)
    requires Follows(k, i, s, a) && Enabled(i, s, act) && (act.Scratch? || act.WriteWord?)
    ensures Follows(k, i, Apply(k, i, s, act), a)
  {
    hide Gathered, NewBlock, Column;
    var l, s' := act.lane, Apply(k, i, s, act);
    ColumnInLane(i, At(s, l), l);
    assert LaneFollows(k, i, s, a, l);
    assert LaneFollows(k, i, s', a, l);
    forall j: nat | j < i.lanes && j != l
      ensures LaneFollows(k, i, s', a, j)
    {
      LaneKept(k, i, s, a, s', a, j);
    }
    forall j: nat, c: nat | j < i.lanes && c < i.laneLength
      ensures CellFollows(i, s', a, j, c)
    {
      assert CellFollows(i, s, a, j, c);
    }
  }

  /** What another lane has gathered is not touched by a store into the segment of this one. */
  lemma GatheredKept(
    k: Kernel<Block>, i: Instance, m: Matrix<Block>, p: Position, l: nat, t: Lane, q: Position, other: nat, b: Block)
    requires Placed(i, p, l) && Placed(i, q, other) && l != other && p.pass == q.pass && p.slice == q.slice
    requires Shaped(i, m) && t.Reading? && Gathered(k, i, m, p, l, t)
    requires Column(i, q) < i.laneLength
    ensures Gathered(k, i, Put(m, other, Column(i, q), b), p, l, t)
  {
    hide PreviousColumn, Column, ReferenceLane, ReferenceColumn, PseudoRand, Agrees;
    ColumnInLane(i, p, l);
    SliceIsolation(i, p, l, PseudoRand(k, i, p, l, m[l][PreviousColumn(i, p)]), q, other);
  }

  lemma WrittenWhole(a: Block, b: Block, written: set<nat>)
    requires forall n | 0 <= n < FB.WORDS && n in written :: a[n] == b[n]
    requires forall n | 0 <= n < FB.WORDS :: n in written
    ensures a == b
  {
  }

  lemma StoredFollows(k: Kernel<Block>, i: Instance, s: State, a: S.State<Block>, l: nat)
    requires Follows(k, i, s, a) && Enabled(i, s, Stored(l))
    ensures S.Enabled(i, a, S.Store(l)) && Follows(k, i, Apply(k, i, s, Stored(l)), S.Apply(k, i, a, S.Store(l)))
  {
    hide NewBlock, Column;
    assert LaneFollows(k, i, s, a, l);
    var s', a', q := Apply(k, i, s, Stored(l)), S.Apply(k, i, a, S.Store(l)), At(s, l);
    ColumnInLane(i, q, l);
    var c0 := Column(i, q);
    assert CellFollows(i, s, a, l, c0);
    WrittenWhole(s.mem[l][c0], s.lanes[l].block, s.lanes[l].written);
    forall j: nat | j < i.lanes
      ensures LaneFollows(k, i, s', a', j)
    {
      assert LaneFollows(k, i, s, a, j);
      if j == l {
        assert Agrees(map[], FB.ZERO_BLOCK);
      } else if ReadingAt(i, s, j) {
        GatheredKept(k, i, a.mem, At(s, j), j, s.lanes[j], q, l, s.lanes[l].block);
      }
    }
    forall j: nat, c: nat | j < i.lanes && c < i.laneLength
      ensures CellFollows(i, s', a', j, c)
    {
      assert CellFollows(i, s, a, j, c);
    }
  }

  // ---- the actions without access to memory ----

  lemma NothingGathered(k: Kernel<Block>, i: Instance, m: Matrix<Block>, p: Position, l: nat, n: nat)
    requires Placed(i, p, l) && Shaped(i, m)
    ensures Gathered(k, i, m, p, l, Beginning(n))
  {
  }

  /** The lane a control action changes, if any. */
  function Changes(i: Instance, s: State, c: S.Action): int {
    match c
    case JoinEarlier => if s.phase.Creating? then s.phase.lane - i.threads else -1
    case Create => if s.phase.Creating? then s.phase.lane else -1
    case JoinRemaining => if s.phase.Draining? then s.phase.lane else -1
    case Exit(l) => l
    case _ => -1
  }

  lemma OtherLane(k: Kernel<Block>, i: Instance, s: State, a: S.State<Block>, c: S.Action, l: nat)
    requires Follows(k, i, s, a) && Enabled(i, s, Control(c)) && !c.NextSlice? && S.Enabled(i, a, c)
    requires l < i.lanes && l != Changes(i, s, c)
    ensures var s', a' := Apply(k, i, s, Control(c)), S.Apply(k, i, a, c);
      && s'.lanes[l] == s.lanes[l] && a'.threads[l] == a.threads[l]
      && s'.pass == s.pass == a'.pass && s'.slice == s.slice == a'.slice && s'.mem == s.mem && a'.mem == a.mem
  {
    hide LaneFollows, CellFollows;
  }

  lemma ChangedLane(k: Kernel<Block>, i: Instance, s: State, a: S.State<Block>, c: S.Action, l: nat)
    requires Follows(k, i, s, a) && Enabled(i, s, Control(c)) && !c.NextSlice? && S.Enabled(i, a, c)
    requires l < i.lanes && l == Changes(i, s, c) && S.PoolInv(i, a)
    ensures var s', a' := Apply(k, i, s, Control(c)), S.Apply(k, i, a, c);
      LaneFollows(k, i, s', a', l) && !WritingAt(i, s, l) && !WritingAt(i, s', l)
  {
    hide Gathered, NewBlock, CellFollows;
    assert LaneFollows(k, i, s, a, l);
    if c.Create? {
      var s' := Apply(k, i, s, Control(c));
      assert a.threads[l].Unborn?;
      assert s'.lanes[l] == Beginning(StartIndex(s.pass, s.slice));
      if ReadingAt(i, s', l) {
        NothingGathered(k, i, a.mem, At(s', l), l, s'.lanes[l].next);
      }
    }
  }

  lemma ControlLane(k: Kernel<Block>, i: Instance, s: State, a: S.State<Block>, c: S.Action, l: nat)
    requires Follows(k, i, s, a) && Enabled(i, s, Control(c)) && !c.NextSlice? && l < i.lanes && S.Enabled(i, a, c)
    requires S.PoolInv(i, a)
    ensures LaneFollows(k, i, Apply(k, i, s, Control(c)), S.Apply(k, i, a, c), l)
    ensures forall d: nat | d < i.laneLength ::
      CellFollows(i, Apply(k, i, s, Control(c)), S.Apply(k, i, a, c), l, d)
  {
    hide S.PoolInv, LaneFollows, CellFollows, Enabled, S.Enabled, Apply, S.Apply;
    var s', a' := Apply(k, i, s, Control(c)), S.Apply(k, i, a, c);
    ControlMemory(k, i, s, a, c);
    if l == Changes(i, s, c) {
      ChangedLane(k, i, s, a, c, l);
    } else {
      OtherLane(k, i, s, a, c, l);
      LaneKept(k, i, s, a, s', a', l);
    }
    forall d: nat | d < i.laneLength
      ensures CellFollows(i, s', a', l, d)
    {
      CellKept(k, i, s, a, s', a', l, d);
    }
  }

  lemma ControlMemory(k: Kernel<Block>, i: Instance, s: State, a: S.State<Block>, c: S.Action)
    requires Follows(k, i, s, a) && Enabled(i, s, Control(c)) && !c.NextSlice? && S.Enabled(i, a, c)
    ensures var s', a' := Apply(k, i, s, Control(c)), S.Apply(k, i, a, c);
      && s'.mem == s.mem && a'.mem == a.mem && s'.phase == a'.phase
      && s'.pass == s.pass == a'.pass && s'.slice == s.slice == a'.slice
  {
    hide LaneFollows, CellFollows;
  }

  lemma ControlFollows(k: Kernel<Block>, i: Instance, s: State, a: S.State<Block>, c: S.Action)
    requires Follows(k, i, s, a) && Enabled(i, s, Control(c)) && !c.NextSlice? && S.PoolInv(i, a)
    ensures S.Enabled(i, a, c) && Follows(k, i, Apply(k, i, s, Control(c)), S.Apply(k, i, a, c))
  {
    hide LaneFollows, CellFollows, Apply, S.Apply, Enabled, S.PoolInv;
    ControlEnabled(k, i, s, a, c);
    ControlMemory(k, i, s, a, c);
    forall j: nat | j < i.lanes
      ensures LaneFollows(k, i, Apply(k, i, s, Control(c)), S.Apply(k, i, a, c), j)
    {
      ControlLane(k, i, s, a, c, j);
    }
    forall j: nat, d: nat | j < i.lanes && d < i.laneLength
      ensures CellFollows(i, Apply(k, i, s, Control(c)), S.Apply(k, i, a, c), j, d)
    {
      ControlLane(k, i, s, a, c, j);
    }
  }

  lemma ControlEnabled(k: Kernel<Block>, i: Instance, s: State, a: S.State<Block>, c: S.Action)
    requires Follows(k, i, s, a) && Enabled(i, s, Control(c))
    ensures S.Enabled(i, a, c)
  {
    hide Gathered, NewBlock;
    forall j: nat | j < i.lanes
      ensures SameOutside(Outside(s.lanes[j]), a.threads[j])
    {
      assert LaneFollows(k, i, s, a, j);
    }
  }

  predicate SameOutside(t: S.Thread<Block>, u: S.Thread<Block>) {
    match t
    case Unborn => u.Unborn?
    case Running(n, f) => u.Running? && u.next == n && (u.fetched.Some? <==> f.Some?)
    case Exited => u.Exited?
    case Joined => u.Joined?
  }

  lemma NextSliceFollows(k: Kernel<Block>, i: Instance, s: State, a: S.State<Block>)
    requires Follows(k, i, s, a) && Enabled(i, s, Control(S.NextSlice)) && S.PoolInv(i, a)
    ensures S.Enabled(i, a, S.NextSlice)
    ensures Follows(k, i, Apply(k, i, s, Control(S.NextSlice)), S.Apply(k, i, a, S.NextSlice))
  {
    hide Gathered, NewBlock;
    ControlEnabled(k, i, s, a, S.NextSlice);
    forall j: nat | j < i.lanes
      ensures s.lanes[j].Joined?
    {
      assert LaneFollows(k, i, s, a, j);
    }
    var s', a' := Apply(k, i, s, Control(S.NextSlice)), S.Apply(k, i, a, S.NextSlice);
    forall j: nat | j < i.lanes
      ensures LaneFollows(k, i, s', a', j)
    {
    }
    forall j: nat, d: nat | j < i.lanes && d < i.laneLength
      ensures CellFollows(i, s', a', j, d)
    {
      assert CellFollows(i, s, a, j, d);
    }
  }

  // ---- the theorems ----

  lemma StepFollows(k: Kernel<Block>, i: Instance, m: Matrix<Block>, s: State, a: S.State<Block>, act: Action)
    returns (a': S.State<Block>)
    requires Follows(k, i, s, a) && S.Inv(k, i, m, a) && Enabled(i, s, act) && UsesFirstWord(k)
    ensures Follows(k, i, Apply(k, i, s, act), a') && S.Inv(k, i, m, a')
  {
    hide Follows, S.Inv, UsesFirstWord, Apply, S.Apply;
    InvHolds(k, i, m, a);
    match act
    case Control(c) =>
      if c.NextSlice? {
        NextSliceFollows(k, i, s, a);
      } else {
        ControlFollows(k, i, s, a, c);
      }
      a' := S.Apply(k, i, a, c);
      S.StepInv(k, i, m, a, c);
    case Compute(l) =>
      ComputeFollows(k, i, s, a, l);
      a' := S.Apply(k, i, a, S.Load(l));
      S.StepInv(k, i, m, a, S.Load(l));
    case Stored(l) =>
      StoredFollows(k, i, s, a, l);
      a' := S.Apply(k, i, a, S.Store(l));
      S.StepInv(k, i, m, a, S.Store(l));
    case Scratch(_, _, _) =>
      WriteFollows(k, i, s, a, act);
      a' := a;
    case WriteWord(_, _) =>
      WriteFollows(k, i, s, a, act);
      a' := a;
    case _ =>
      ReadFollows(k, i, s, a, act);
      a' := a;
  }

  lemma InvHolds(k: Kernel<Block>, i: Instance, m: Matrix<Block>, a: S.State<Block>)
    requires S.Inv(k, i, m, a)
    ensures S.WellFormed(i, a) && S.PoolInv(i, a)
  {
  }

  lemma {:induction false} RunFollows(
    k: Kernel<Block>, i: Instance, m: Matrix<Block>, s: State, a: S.State<Block>, acts: seq<Action>, t: State)
    returns (b: S.State<Block>)
    requires Follows(k, i, s, a) && S.Inv(k, i, m, a) && UsesFirstWord(k) && Runs(k, i, s, acts, t)
    ensures Follows(k, i, t, b) && S.Inv(k, i, m, b)
    decreases |acts|
  {
    hide S.Inv, UsesFirstWord, Apply, Enabled, LaneFollows, CellFollows;
    if acts == [] {
      b := a;
    } else {
      var a' := StepFollows(k, i, m, s, a, acts[0]);
      b := RunFollows(k, i, m, Apply(k, i, s, acts[0]), a', acts[1..], t);
    }
  }

  lemma InitialFollows(k: Kernel<Block>, i: Instance, m: Matrix<Block>)
    requires Valid(i) && Shaped(i, m)
    ensures Follows(k, i, Initial(i, m), S.Initial(i, m)) && S.Inv(k, i, m, S.Initial(i, m))
  {
    hide S.Inv;
    S.InitialInv(k, i, m);
    var s, a := Initial(i, m), S.Initial(i, m);
    assert Outline(s) == a;
  }

  lemma Settled(k: Kernel<Block>, i: Instance, s: State, a: S.State<Block>)
    requires Follows(k, i, s, a) && s.phase.Finished? && S.PoolInv(i, a)
    ensures s.mem == a.mem
  {
    hide Gathered, NewBlock;
    forall j: nat, d: nat | j < i.lanes && d < i.laneLength
      ensures s.mem[j][d] == a.mem[j][d]
    {
      assert LaneFollows(k, i, s, a, j);
      assert CellFollows(i, s, a, j, d);
    }
    forall j | 0 <= j < i.lanes
      ensures s.mem[j] == a.mem[j]
    {
    }
  }

  /**
   * However the lanes' word accesses interleave, a finished run leaves in memory exactly what the
   * single-threaded filler leaves there.
   */
  lemma WordScheduleIndependence(k: Kernel<Block>, i: Instance, m: Matrix<Block>, acts: seq<Action>, t: State)
    requires Valid(i) && Shaped(i, m) && UsesFirstWord(k) && Runs(k, i, Initial(i, m), acts, t)
    requires t.phase.Finished?
    ensures t.mem == Passes(k, i, m, i.passes)
  {
    hide UsesFirstWord, Passes, LaneFollows, CellFollows;
    InitialFollows(k, i, m);
    var b := RunFollows(k, i, m, Initial(i, m), S.Initial(i, m), acts, t);
    InvHolds(k, i, m, b);
    Settled(k, i, t, b);
  }

  /** What a reading lane has gathered, at any point of any run, are words of the whole blocks it would read alone. */
  lemma NoTornReads(k: Kernel<Block>, i: Instance, m: Matrix<Block>, acts: seq<Action>, t: State, l: nat)
    requires Valid(i) && Shaped(i, m) && UsesFirstWord(k) && Runs(k, i, Initial(i, m), acts, t)
    requires WellFormed(i, t) && ReadingAt(i, t, l)
    ensures var p := At(t, l);
      Gathered(k, i, Segment(k, i, S.Base(k, i, m, t.pass, t.slice), t.pass, t.slice, l, p.index), p, l, t.lanes[l])
  {
    hide UsesFirstWord, CellFollows;
    InitialFollows(k, i, m);
    var b := RunFollows(k, i, m, Initial(i, m), S.Initial(i, m), acts, t);
    AsAlone(k, i, m, t, b, l);
  }

  lemma AsAlone(k: Kernel<Block>, i: Instance, m: Matrix<Block>, s: State, a: S.State<Block>, l: nat)
    requires Follows(k, i, s, a) && S.Inv(k, i, m, a) && ReadingAt(i, s, l)
    ensures var p := At(s, l);
      Gathered(k, i, Segment(k, i, S.Base(k, i, m, s.pass, s.slice), s.pass, s.slice, l, p.index), p, l, s.lanes[l])
  {
    hide CellFollows, S.Base, Agrees, PreviousColumn, ReferenceLane, ReferenceColumn;
    var base, p := S.Base(k, i, m, s.pass, s.slice), At(s, l);
    assert LaneFollows(k, i, s, a, l);
    assert S.DoneAll(i, a)[l] == p.index;
    MergedStep(k, i, base, s.pass, s.slice, S.DoneAll(i, a), a.mem, l);
  }
}
