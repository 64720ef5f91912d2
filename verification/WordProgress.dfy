/** The word-by-word filler can always be brought to its end, so its finished runs exist. */
module WordProgress {
  import opened Options
  import opened Words
  import opened Geometry
  import opened Filling
  import FB = FillBlock
  import S = Schedule
  import opened WordSchedule
  import ThreadPool

  const EVERY_WORD: set<nat> := set n: nat | n < FB.WORDS

  /** How many words a lane has still to read or to write before its next block-step is done. */
  function Missing(t: Lane): nat {
    match t
    case Reading(_, p, r, x) => |EVERY_WORD - p.Keys| + |EVERY_WORD - r.Keys| + |EVERY_WORD - x.Keys|
    case Writing(_, _, w) => |EVERY_WORD - w|
    case _ => 0
  }

  lemma FewerMissing(have: set<nat>, n: nat)
    requires n < FB.WORDS && n !in have
    ensures |EVERY_WORD - (have + {n})| < |EVERY_WORD - have|
  {
    assert EVERY_WORD - have == (EVERY_WORD - (have + {n})) + {n};
  }

  /** Whether the word an action accesses is one its lane has not accessed yet. */
  predicate NewWord(t: Lane, act: Action) {
    match act
    case ReadPrev(_, n) => t.Reading? && n !in t.prev
    case ReadRef(_, n) => t.Reading? && n !in t.ref
    case ReadPrior(_, n) => t.Reading? && n !in t.prior
    case WriteWord(_, n) => t.Writing? && n !in t.written
    case _ => false
  }

  lemma KeyGained(p: Partial, n: nat, word: Word64)
    requires n < FB.WORDS && n !in p
    ensures |EVERY_WORD - p[n := word].Keys| < |EVERY_WORD - p.Keys|
  {
    FewerMissing(p.Keys, n);
    assert p[n := word].Keys == p.Keys + {n};
  }

  lemma WordGained(t: Lane, act: Action, word: Word64)
    requires !act.Control? && !act.Compute? && !act.Stored? && act.n < FB.WORDS && NewWord(t, act)
    ensures Missing(After(t, act, word)) < Missing(t)
  {
    match act
    case ReadPrev(_, n) => KeyGained(t.prev, n, word);
    case ReadRef(_, n) => KeyGained(t.ref, n, word);
    case ReadPrior(_, n) => KeyGained(t.prior, n, word);
    case WriteWord(_, n) => FewerMissing(t.written, n);
  }

  /** A lane after accessing one word, which it reads as `word` where it reads. */
  function After(t: Lane, act: Action, word: Word64): Lane {
    match act
    case ReadPrev(_, n) => if t.Reading? then t.(prev := t.prev[n := word]) else t
    case ReadRef(_, n) => if t.Reading? then t.(ref := t.ref[n := word]) else t
    case ReadPrior(_, n) => if t.Reading? then t.(prior := t.prior[n := word]) else t
    case WriteWord(_, n) => if t.Writing? then t.(written := t.written + {n}) else t
    case _ => t
  }

  lemma Accessed(k: Kernel<Block>, i: Instance, s: State, act: Action) returns (word: Word64)
    requires WellFormed(i, s) && Enabled(i, s, act) && !act.Control? && act.lane < i.lanes
    requires NewWord(s.lanes[act.lane], act)
    ensures Apply(k, i, s, act).lanes[act.lane] == After(s.lanes[act.lane], act, word)
  {
    hide Placed, WithXor, RandKnown, PutWord, PreviousColumn, Column, PseudoRand, ReferenceLane, ReferenceColumn;
    var t, l := s.lanes[act.lane], act.lane;
    word := 0;
    ColumnInLane(i, At(s, l), l);
    match act
    case ReadPrev(_, n) => word := s.mem[l][PreviousColumn(i, At(s, l))][n];
    case ReadRef(_, n) =>
      var cell := RefCell(i, At(s, l), l, RandFrom(k, i, At(s, l), l, t.prev));
      word := s.mem[cell.0][cell.1][n];
    case ReadPrior(_, n) => word := s.mem[l][Column(i, At(s, l))][n];
    case WriteWord(_, _) =>
  }

  predicate Accesses(act: Action, l: nat) {
    (act.ReadPrev? || act.ReadRef? || act.ReadPrior? || act.WriteWord?) && act.lane == l
  }

  /** A lane in the middle of a block-step can access a word it still misses, or is done with reading or writing. */
  lemma NextWord(i: Instance, s: State, l: nat) returns (act: Action)
    requires WellFormed(i, s) && (ReadingAt(i, s, l) || WritingAt(i, s, l))
    ensures Enabled(i, s, act)
    ensures act == Compute(l) || act == Stored(l) || (Accesses(act, l) && NewWord(s.lanes[l], act))
  {
    hide Placed, WithXor;
    var t := s.lanes[l];
    if t.Writing? {
      if n: nat :| n < FB.WORDS && n !in t.written {
        act := WriteWord(l, n);
      } else {
        act := Stored(l);
      }
    } else if n: nat :| n < FB.WORDS && n !in t.prev {
      act := ReadPrev(l, n);
    } else if n: nat :| n < FB.WORDS && n !in t.ref {
      act := ReadRef(l, n);
    } else if n: nat :| n < FB.WORDS && n !in t.prior {
      act := ReadPrior(l, n);
    } else {
      act := Compute(l);
    }
  }

  lemma StillThere(k: Kernel<Block>, i: Instance, s: State, act: Action, l: nat)
    requires WellFormed(i, s) && Enabled(i, s, act) && Accesses(act, l)
    ensures ReadingAt(i, s, l) ==> ReadingAt(i, Apply(k, i, s, act), l)
    ensures WritingAt(i, s, l) ==> WritingAt(i, Apply(k, i, s, act), l)
  {
    hide Placed, RandFrom, RefCell, PutWord;
  }

  /** A lane in the middle of a block-step can complete its reading, or its writing. */
  lemma {:induction false} Advance(
    k: Kernel<Block>, i: Instance, m: Matrix<Block>, s: State, a: S.State<Block>, l: nat)
    returns (acts: seq<Action>, t: State, b: S.State<Block>)
    requires Follows(k, i, s, a) && S.Inv(k, i, m, a) && UsesFirstWord(k)
    requires ReadingAt(i, s, l) || WritingAt(i, s, l)
    ensures Runs(k, i, s, acts, t) && Follows(k, i, t, b) && S.Inv(k, i, m, b)
    ensures ThreadPool.Work(i, b) < ThreadPool.Work(i, a)
    decreases Missing(s.lanes[l])
  {
    hide S.Inv, UsesFirstWord, ThreadPool.Work, LaneFollows, CellFollows, Missing, S.Apply;
    var act := NextWord(i, s, l);
    var next := Apply(k, i, s, act);
    InvHolds(k, i, m, a);
    if act.Compute? || act.Stored? {
      var c := if act.Compute? then S.Load(l) else S.Store(l);
      if act.Compute? {
        ComputeFollows(k, i, s, a, l);
      } else {
        StoredFollows(k, i, s, a, l);
      }
      S.StepInv(k, i, m, a, c);
      ThreadPool.StepWork(k, i, m, a, c);
      acts, t, b := [act], next, S.Apply(k, i, a, c);
      assert acts[1..] == [];
    } else {
      var word := Accessed(k, i, s, act);
      WordGained(s.lanes[l], act, word);
      if act.WriteWord? {
        WriteFollows(k, i, s, a, act);
      } else {
        ReadFollows(k, i, s, a, act);
      }
      StillThere(k, i, s, act, l);
      var rest;
      rest, t, b := Advance(k, i, m, next, a, l);
      acts := [act] + rest;
      assert acts[1..] == rest;
    }
  }

  lemma {:induction false} RunsAppend(
    k: Kernel<Block>, i: Instance, s: State, a: seq<Action>, t: State, b: seq<Action>, u: State)
    requires WellFormed(i, s) && Runs(k, i, s, a, t) && WellFormed(i, t) && Runs(k, i, t, b, u)
    ensures Runs(k, i, s, a + b, u)
    decreases |a|
  {
    hide Apply, Enabled;
    if a == [] {
      assert a + b == b;
    } else {
      RunsAppend(k, i, Apply(k, i, s, a[0]), a[1..], t, b, u);
      assert (a + b)[1..] == a[1..] + b;
    }
  }

  /** The lane's next action without access to memory, or the word accesses that bring it to the end of one. */
  lemma SomeProgress(k: Kernel<Block>, i: Instance, m: Matrix<Block>, s: State, a: S.State<Block>, c: S.Action)
    returns (acts: seq<Action>, t: State, b: S.State<Block>)
    requires Follows(k, i, s, a) && S.Inv(k, i, m, a) && UsesFirstWord(k) && S.WellFormed(i, a) && S.Enabled(i, a, c)
    ensures Runs(k, i, s, acts, t) && Follows(k, i, t, b) && S.Inv(k, i, m, b)
    ensures ThreadPool.Work(i, b) < ThreadPool.Work(i, a)
  {
    hide S.Inv, UsesFirstWord, ThreadPool.Work, S.Apply, CellFollows, Gathered;
    if c.Load? || c.Store? {
      assert LaneFollows(k, i, s, a, c.lane);
      acts, t, b := Advance(k, i, m, s, a, c.lane);
    } else {
      AllowedHere(k, i, s, a, c);
      InvHolds(k, i, m, a);
      if c.NextSlice? {
        NextSliceFollows(k, i, s, a);
      } else {
        ControlFollows(k, i, s, a, c);
      }
      S.StepInv(k, i, m, a, c);
      ThreadPool.StepWork(k, i, m, a, c);
      acts, t, b := [Control(c)], Apply(k, i, s, Control(c)), S.Apply(k, i, a, c);
      assert acts[1..] == [];
    }
  }

  lemma AllowedHere(k: Kernel<Block>, i: Instance, s: State, a: S.State<Block>, c: S.Action)
    requires Follows(k, i, s, a) && S.WellFormed(i, a) && S.Enabled(i, a, c) && !c.Load? && !c.Store?
    ensures Enabled(i, s, Control(c))
  {
    hide Gathered, NewBlock;
    forall j: nat | j < i.lanes
      ensures SameOutside(Outside(s.lanes[j]), a.threads[j])
    {
      assert LaneFollows(k, i, s, a, j);
    }
  }

  /** From every state a run passes through, some continuation lets the filler finish. */
  lemma {:induction false} CanFinish(k: Kernel<Block>, i: Instance, m: Matrix<Block>, s: State, a: S.State<Block>)
    returns (more: seq<Action>, t: State)
    requires Follows(k, i, s, a) && S.Inv(k, i, m, a) && UsesFirstWord(k)
    ensures Runs(k, i, s, more, t) && t.phase.Finished?
    decreases ThreadPool.Work(i, a)
  {
    hide S.Inv, UsesFirstWord, ThreadPool.Work, LaneFollows, CellFollows, Apply, Enabled, S.Enabled;
    InvHolds(k, i, m, a);
    ThreadPool.NoDeadlock(k, i, m, a);
    if s.phase.Finished? {
      more, t := [], s;
    } else {
      var c: S.Action :| S.Enabled(i, a, c);
      ThreadPool.WorkNonNegative(i, a);
      var acts, s', b := SomeProgress(k, i, m, s, a, c);
      var rest;
      rest, t := CanFinish(k, i, m, s', b);
      RunsAppend(k, i, s, acts, s', rest, t);
      more := acts + rest;
    }
  }

  /** Every run can be carried on until the filler finishes. */
  lemma EveryRunCanFinish(k: Kernel<Block>, i: Instance, m: Matrix<Block>, acts: seq<Action>, s: State)
    requires Valid(i) && Shaped(i, m) && UsesFirstWord(k) && Runs(k, i, Initial(i, m), acts, s)
    ensures exists more, t :: Runs(k, i, Initial(i, m), acts + more, t) && t.phase.Finished?
  {
    hide UsesFirstWord, LaneFollows, CellFollows, Apply, Enabled;
    InitialFollows(k, i, m);
    var a := RunFollows(k, i, m, Initial(i, m), S.Initial(i, m), acts, s);
    var more, t := CanFinish(k, i, m, s, a);
    RunsAppend(k, i, Initial(i, m), acts, s, more, t);
  }
}
