/**
 * The discipline of the lane threads in fill_memory_blocks_mt: how many are alive, that each is
 * created and joined once per slice, and that no schedule can get stuck or run for ever.
 */
module ThreadPool {
  import opened Words
  import opened Geometry
  import opened Filling
  import opened Schedule

  // ---- at most `threads` at once, none left over between slices ----

  /** Lanes whose thread has been created and not yet joined. */
  function Alive<B>(s: State<B>): set<nat> {
    set l: nat | l < |s.threads| && (s.threads[l].Running? || s.threads[l].Exited?)
  }

  function Interval(lo: nat, hi: nat): set<nat> {
    set l: nat | l < hi && FromOn(lo, l)
  }

  predicate FromOn(lo: nat, l: nat) {
    lo <= l
  }

  lemma {:induction false} IntervalSize(lo: nat, hi: nat)
    requires lo <= hi
    ensures |Interval(lo, hi)| == hi - lo
    decreases hi
  {
    if lo < hi {
      IntervalSize(lo, hi - 1);
      assert Interval(lo, hi) == Interval(lo, hi - 1) + {hi - 1};
    } else {
      assert Interval(lo, hi) == {};
    }
  }

  lemma SubsetSize(a: set<nat>, lo: nat, hi: nat)
    requires lo <= hi && a <= Interval(lo, hi)
    ensures |a| <= hi - lo
  {
    IntervalSize(lo, hi);
    var rest := Interval(lo, hi) - a;
    assert Interval(lo, hi) == a + rest;
  }

  lemma AtMostThreadsAlive<B>(k: Kernel<B>, i: Instance, m: Matrix<B>, acts: seq<Action>, s: State<B>)
    requires Valid(i) && Shaped(i, m) && Runs(k, i, Initial(i, m), acts, s)
    ensures |Alive(s)| <= i.threads
  {
    InitialInv(k, i, m);
    RunInv(k, i, m, Initial(i, m), acts, s);
    PoolSize(i, s);
  }

  lemma PoolSize<B>(i: Instance, s: State<B>)
    requires WellFormed(i, s) && PoolInv(i, s)
    ensures |Alive(s)| <= i.threads
  {
    match s.phase
    case Creating(lane, slotFree) =>
      SubsetSize(Alive(s), if lane > i.threads then lane - i.threads else 0, lane);
    case Draining(lane) =>
      SubsetSize(Alive(s), lane, i.lanes);
    case Finished =>
      assert Alive(s) == {};
  }

  lemma NoneAliveBetweenSlices<B>(k: Kernel<B>, i: Instance, m: Matrix<B>, acts: seq<Action>, s: State<B>)
    requires Valid(i) && Shaped(i, m) && Runs(k, i, Initial(i, m), acts, s) && WellFormed(i, s)
    requires Enabled(i, s, NextSlice)
    ensures Alive(s) == {} && forall l | 0 <= l < |s.threads| :: s.threads[l].Joined?
  {
    InitialInv(k, i, m);
    RunInv(k, i, m, Initial(i, m), acts, s);
  }

  // ---- every lane's thread is created once and joined once in every slice ----

  /** The lane whose thread the action creates, or -1. */
  function Created<B>(s: State<B>, a: Action): int {
    if a.Create? && s.phase.Creating? then s.phase.lane else -1
  }

  /** The lane whose thread the action joins, or -1. */
  function JoinedBy<B>(i: Instance, s: State<B>, a: Action): int {
    if a.JoinEarlier? && s.phase.Creating? then s.phase.lane - i.threads
    else if a.JoinRemaining? && s.phase.Draining? then s.phase.lane
    else -1
  }

  function One(b: bool): nat {
    if b then 1 else 0
  }

  function SlicesBegun<B>(s: State<B>): nat {
    s.pass * SYNC_POINTS + s.slice
  }

  /** How often lane l's thread is created while the n-th slice of the run is worked on. */
  ghost function Creations<B>(
    k: Kernel<B>, i: Instance, s: State<B>, acts: seq<Action>, t: State<B>, n: nat, l: nat): nat
    requires WellFormed(i, s) && Runs(k, i, s, acts, t)
    decreases |acts|
  {
    if acts == [] then 0
    else
      One(SlicesBegun(s) == n && Created(s, acts[0]) == l)
      + Creations(k, i, Apply(k, i, s, acts[0]), acts[1..], t, n, l)
  }

  /** How often it is joined while the n-th slice is worked on. */
  ghost function Joins<B>(
    k: Kernel<B>, i: Instance, s: State<B>, acts: seq<Action>, t: State<B>, n: nat, l: nat): nat
    requires WellFormed(i, s) && Runs(k, i, s, acts, t)
    decreases |acts|
  {
    if acts == [] then 0
    else
      One(SlicesBegun(s) == n && JoinedBy(i, s, acts[0]) == l)
      + Joins(k, i, Apply(k, i, s, acts[0]), acts[1..], t, n, l)
  }

  /** 1 once lane l has been created in slice n, 0 before. */
  function CreatedSoFar<B>(s: State<B>, n: nat, l: nat): nat
    requires l < |s.threads|
  {
    One(SlicesBegun(s) > n || (SlicesBegun(s) == n && !s.threads[l].Unborn?))
  }

  /** 1 once lane l has been joined in slice n, 0 before. */
  function JoinedSoFar<B>(s: State<B>, n: nat, l: nat): nat
    requires l < |s.threads|
  {
    One(SlicesBegun(s) > n || (SlicesBegun(s) == n && s.threads[l].Joined?))
  }

  lemma StepCounts<B>(k: Kernel<B>, i: Instance, m: Matrix<B>, s: State<B>, a: Action, n: nat, l: nat)
    requires Inv(k, i, m, s) && Enabled(i, s, a) && l < i.lanes
    ensures var s' := Apply(k, i, s, a);
      && CreatedSoFar(s', n, l) == CreatedSoFar(s, n, l) + One(SlicesBegun(s) == n && Created(s, a) == l)
      && JoinedSoFar(s', n, l) == JoinedSoFar(s, n, l) + One(SlicesBegun(s) == n && JoinedBy(i, s, a) == l)
  {
    hide LaneInv, Base, Fetch, Write;
  }

  lemma {:induction false} RunCounts<B>(
    k: Kernel<B>, i: Instance, m: Matrix<B>, s: State<B>, acts: seq<Action>, t: State<B>, n: nat, l: nat)
    requires Inv(k, i, m, s) && Runs(k, i, s, acts, t) && l < i.lanes
    ensures |t.threads| == i.lanes
    ensures CreatedSoFar(t, n, l) == CreatedSoFar(s, n, l) + Creations(k, i, s, acts, t, n, l)
    ensures JoinedSoFar(t, n, l) == JoinedSoFar(s, n, l) + Joins(k, i, s, acts, t, n, l)
    decreases |acts|
  {
    hide Inv, Apply, Enabled, CreatedSoFar, JoinedSoFar;
    InvPool(k, i, m, s);
    if acts != [] {
      StepCounts(k, i, m, s, acts[0], n, l);
      StepInv(k, i, m, s, acts[0]);
      RunCounts(k, i, m, Apply(k, i, s, acts[0]), acts[1..], t, n, l);
    }
  }

  /** On every finished run, in every slice of every pass, each lane's thread is created once and joined once. */
  lemma OneThreadPerLaneAndSlice<B>(
    k: Kernel<B>, i: Instance, m: Matrix<B>, acts: seq<Action>, t: State<B>, n: nat, l: nat)
    requires Valid(i) && Shaped(i, m) && l < i.lanes && n < i.passes * SYNC_POINTS
    requires Runs(k, i, Initial(i, m), acts, t) && t.phase.Finished?
    ensures Creations(k, i, Initial(i, m), acts, t, n, l) == 1
    ensures Joins(k, i, Initial(i, m), acts, t, n, l) == 1
  {
    InitialInv(k, i, m);
    RunInv(k, i, m, Initial(i, m), acts, t);
    RunCounts(k, i, m, Initial(i, m), acts, t, n, l);
  }

  // ---- no deadlock ----

  ghost predicate CanMove<B>(i: Instance, s: State<B>)
    requires WellFormed(i, s)
  {
    exists a: Action :: Enabled(i, s, a)
  }

  /** A created thread that has not exited can always take its next step. */
  lemma LaneCanMove<B>(k: Kernel<B>, i: Instance, m: Matrix<B>, s: State<B>, l: nat)
    requires Inv(k, i, m, s) && l < i.lanes && s.threads[l].Running?
    ensures CanMove(i, s)
  {
    assert LaneInv(k, i, Base(k, i, m, s.pass, s.slice), s, l);
    var n := s.threads[l].next;
    if n >= i.segmentLength {
      assert Enabled(i, s, Exit(l));
    } else if s.threads[l].fetched.None? {
      assert Enabled(i, s, Load(l));
    } else {
      assert Enabled(i, s, Store(l));
    }
  }

  lemma NoDeadlock<B>(k: Kernel<B>, i: Instance, m: Matrix<B>, s: State<B>)
    requires Inv(k, i, m, s)
    ensures s.phase.Finished? <==> !CanMove(i, s)
  {
    match s.phase
    case Creating(lane, slotFree) =>
      if lane >= i.lanes {
        assert Enabled(i, s, StartDraining);
      } else if lane < i.threads || slotFree {
        assert Enabled(i, s, Create);
      } else {
        var l: nat := lane - i.threads;
        if s.threads[l].Running? {
          LaneCanMove(k, i, m, s, l);
        } else {
          assert Enabled(i, s, JoinEarlier);
        }
      }
    case Draining(lane) =>
      if lane >= i.lanes {
        assert Enabled(i, s, NextSlice);
      } else if s.threads[lane].Running? {
        LaneCanMove(k, i, m, s, lane);
      } else {
        assert Enabled(i, s, JoinRemaining);
      }
    case Finished =>
  }

  // ---- no infinite run ----

  /** How many more actions of its own, creation and joining included, a thread has in this slice. */
  function Left<B>(i: Instance, t: Thread<B>): nat {
    match t
    case Unborn => 2 * i.segmentLength + 3
    case Running(n, f) =>
      (if n < i.segmentLength then 2 * (i.segmentLength - n) else 0) + (if f.None? then 2 else 1)
    case Exited => 1
    case Joined => 0
  }

  function LeftOfAll<B>(i: Instance, ts: seq<Thread<B>>): nat {
    if ts == [] then 0 else LeftOfAll(i, ts[..|ts| - 1]) + Left(i, ts[|ts| - 1])
  }

  lemma {:induction false} LeftUpdate<B>(i: Instance, ts: seq<Thread<B>>, l: nat, t: Thread<B>)
    requires l < |ts|
    ensures LeftOfAll(i, ts[l := t]) == LeftOfAll(i, ts) - Left(i, ts[l]) + Left(i, t)
  {
    var init := ts[..|ts| - 1];
    if l == |ts| - 1 {
      assert ts[l := t][..l] == init;
    } else {
      LeftUpdate(i, init, l, t);
      assert ts[l := t][..|ts| - 1] == init[l := t];
    }
  }

  lemma {:induction false} LeftUniform<B>(i: Instance, ts: seq<Thread<B>>, t: Thread<B>)
    requires forall l | 0 <= l < |ts| :: ts[l] == t
    ensures LeftOfAll(i, ts) == |ts| * Left(i, t)
  {
    if ts != [] {
      LeftUniform(i, ts[..|ts| - 1], t);
      assert |ts| * Left(i, t) == (|ts| - 1) * Left(i, t) + Left(i, t);
    }
  }

  /** The actions one whole slice takes at most. */
  function PerSlice(i: Instance): nat {
    i.lanes * (2 * i.segmentLength + 3) + 2
  }

  function PhaseLeft(p: Phase): nat {
    match p
    case Creating(_, _) => 2
    case Draining(_) => 1
    case Finished => 0
  }

  function SlicesLeft<B>(i: Instance, s: State<B>): int {
    i.passes * SYNC_POINTS - SlicesBegun(s) - 1
  }

  function Work<B>(i: Instance, s: State<B>): int {
    SlicesLeft(i, s) * PerSlice(i) + LeftOfAll(i, s.threads) + PhaseLeft(s.phase)
  }

  lemma NextSliceWork<B>(k: Kernel<B>, i: Instance, s: State<B>)
    requires WellFormed(i, s) && PoolInv(i, s) && Enabled(i, s, NextSlice)
    ensures Work(i, Apply(k, i, s, NextSlice)) < Work(i, s)
  {
    var s' := Apply(k, i, s, NextSlice);
    LeftUniform(i, s.threads, Joined);
    if s'.phase.Creating? {
      UnbornWork<B>(i);
      hide PerSlice, LeftOfAll;
      OneSliceLess(SlicesLeft(i, s), PerSlice(i));
    }
  }

  lemma OneSliceLess(n: int, b: int)
    ensures (n - 1) * b + b == n * b
  {
  }

  lemma UnbornWork<B>(i: Instance)
    ensures LeftOfAll(i, AllUnborn<B>(i.lanes)) + 2 == PerSlice(i)
  {
    LeftUniform(i, AllUnborn<B>(i.lanes), Unborn);
  }

  /** Every action other than NextSlice touches one thread at most. */
  lemma ThreadWork<B>(k: Kernel<B>, i: Instance, m: Matrix<B>, s: State<B>, a: Action)
    requires Inv(k, i, m, s) && Enabled(i, s, a) && !a.NextSlice?
    ensures Work(i, Apply(k, i, s, a)) < Work(i, s)
  {
    hide LaneInv, Base, Fetch, Write;
    var s' := Apply(k, i, s, a);
    assert SlicesLeft(i, s') == SlicesLeft(i, s);
    match a
    case JoinEarlier => LeftUpdate(i, s.threads, s.phase.lane - i.threads, Joined);
    case Create =>
      assert s.threads[s.phase.lane].Unborn?;
      LeftUpdate(i, s.threads, s.phase.lane, s'.threads[s.phase.lane]);
    case StartDraining =>
    case JoinRemaining => LeftUpdate(i, s.threads, s.phase.lane, Joined);
    case Load(l) => LeftUpdate(i, s.threads, l, s'.threads[l]);
    case Store(l) => LeftUpdate(i, s.threads, l, s'.threads[l]);
    case Exit(l) => LeftUpdate(i, s.threads, l, Exited);
  }

  lemma StepWork<B>(k: Kernel<B>, i: Instance, m: Matrix<B>, s: State<B>, a: Action)
    requires Inv(k, i, m, s) && Enabled(i, s, a)
    ensures Work(i, Apply(k, i, s, a)) < Work(i, s)
  {
    hide Work, Apply;
    if a.NextSlice? {
      NextSliceWork(k, i, s);
    } else {
      ThreadWork(k, i, m, s, a);
    }
  }

  lemma {:induction false} RunWork<B>(
    k: Kernel<B>, i: Instance, m: Matrix<B>, s: State<B>, acts: seq<Action>, t: State<B>)
    requires Inv(k, i, m, s) && Runs(k, i, s, acts, t)
    ensures |acts| + Work(i, t) <= Work(i, s)
    decreases |acts|
  {
    if acts != [] {
      hide Work, Inv, Apply, Enabled;
      StepWork(k, i, m, s, acts[0]);
      StepInv(k, i, m, s, acts[0]);
      RunWork(k, i, m, Apply(k, i, s, acts[0]), acts[1..], t);
    }
  }

  lemma InvPool<B>(k: Kernel<B>, i: Instance, m: Matrix<B>, s: State<B>)
    requires Inv(k, i, m, s)
    ensures WellFormed(i, s) && PoolInv(i, s)
  {
  }

  lemma WorkNonNegative<B>(i: Instance, s: State<B>)
    requires WellFormed(i, s)
    ensures Work(i, s) >= 0
  {
    MulMonotone(s.pass + 1, i.passes, SYNC_POINTS);
    MulMonotone(0, SlicesLeft(i, s), PerSlice(i));
  }

  /** From every state a run passes through, some continuation lets the filler finish. */
  lemma {:induction false} CanFinish<B>(k: Kernel<B>, i: Instance, m: Matrix<B>, s: State<B>)
    returns (more: seq<Action>, t: State<B>)
    requires Inv(k, i, m, s)
    ensures Runs(k, i, s, more, t) && t.phase.Finished?
    decreases Work(i, s)
  {
    hide Work, Inv, Apply, Enabled;
    InvPool(k, i, m, s);
    NoDeadlock(k, i, m, s);
    if s.phase.Finished? {
      more, t := [], s;
    } else {
      var a: Action :| Enabled(i, s, a);
      StepInv(k, i, m, s, a);
      StepWork(k, i, m, s, a);
      WorkNonNegative(i, s);
      var rest, t' := CanFinish(k, i, m, Apply(k, i, s, a));
      more, t := [a] + rest, t';
      assert more[1..] == rest;
    }
  }

  /**
   * No schedule is longer than a number of actions fixed by the geometry, only a finished one has
   * nothing left to do, and that one has the sequential result in memory.
   */
  lemma SchedulesFinish<B>(k: Kernel<B>, i: Instance, m: Matrix<B>, acts: seq<Action>, t: State<B>)
    requires Valid(i) && Shaped(i, m) && Runs(k, i, Initial(i, m), acts, t)
    ensures |acts| <= i.passes * SYNC_POINTS * PerSlice(i)
    ensures WellFormed(i, t) && (t.phase.Finished? <==> !CanMove(i, t))
    ensures !CanMove(i, t) ==> t.mem == Passes(k, i, m, i.passes)
  {
    InitialInv(k, i, m);
    RunInv(k, i, m, Initial(i, m), acts, t);
    NoDeadlock(k, i, m, t);
    RunWork(k, i, m, Initial(i, m), acts, t);
    InvPool(k, i, m, t);
    WorkNonNegative(i, t);
    InitialWork(i, m);
  }

  lemma InitialWork<B>(i: Instance, m: Matrix<B>)
    requires Valid(i) && Shaped(i, m)
    ensures Work(i, Initial(i, m)) == i.passes * SYNC_POINTS * PerSlice(i)
  {
    UnbornWork<B>(i);
    OneSliceLess(i.passes * SYNC_POINTS, PerSlice(i));
  }
}
