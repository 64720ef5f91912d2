/**
 * fill_memory_blocks_mt as a transition system. The main thread creates and joins one thread per
 * lane and slice; a lane thread fetches the blocks for its next block-step and stores the result
 * in two separate actions, so that any other thread may act between its reads and its write.
 */
module Schedule {
  import opened Options
  import opened Words
  import opened Geometry
  import opened Filling
  import opened Isolation

  /** A lane's thread in the current slice; `next` is the loop variable of fill_segment. */
  datatype Thread<B> =
    | Unborn
    | Running(next: nat, fetched: Option<Reads<B>>)
    | Exited
    | Joined

  /** Where the main thread is: in the creating loop at `lane`, in the final joining loop, or done. */
  datatype Phase =
    | Creating(lane: nat, slotFree: bool)
    | Draining(lane: nat)
    | Finished

  datatype State<B> = State(mem: Matrix<B>, pass: Word32, slice: nat, phase: Phase, threads: seq<Thread<B>>)

  datatype Action =
    | JoinEarlier | Create | StartDraining | JoinRemaining | NextSlice
    | Load(lane: nat) | Store(lane: nat) | Exit(lane: nat)

  function AllUnborn<B>(n: nat): seq<Thread<B>> {
    seq(n, l => Unborn)
  }

  function Initial<B>(i: Instance, m: Matrix<B>): State<B> {
    State(m, 0, 0, Creating(0, false), AllUnborn(i.lanes))
  }

  ghost predicate WellFormed<B>(i: Instance, s: State<B>) {
    && Valid(i) && Shaped(i, s.mem) && |s.threads| == i.lanes
    && s.slice < SYNC_POINTS && s.pass < i.passes
  }

  /** pthread_join on lane `l` can return: the thread was created, has exited and was not joined yet. */
  predicate CanJoin<B>(s: State<B>, l: int) {
    0 <= l < |s.threads| && s.threads[l].Exited?
  }

  ghost predicate Enabled<B>(i: Instance, s: State<B>, a: Action)
    requires WellFormed(i, s)
  {
    match a
    case JoinEarlier =>
      && s.phase.Creating? && s.phase.lane < i.lanes && s.phase.lane >= i.threads && !s.phase.slotFree
      && CanJoin(s, s.phase.lane - i.threads)
    case Create =>
      s.phase.Creating? && s.phase.lane < i.lanes && (s.phase.lane < i.threads || s.phase.slotFree)
    case StartDraining => s.phase.Creating? && s.phase.lane >= i.lanes
    case JoinRemaining => s.phase.Draining? && s.phase.lane < i.lanes && CanJoin(s, s.phase.lane)
    case NextSlice => s.phase.Draining? && s.phase.lane >= i.lanes
    case Load(l) =>
      && l < i.lanes && s.threads[l].Running? && s.threads[l].fetched.None?
      && s.threads[l].next < i.segmentLength
      && Placed(i, Position(s.pass, s.slice, s.threads[l].next), l)
    case Store(l) =>
      && l < i.lanes && s.threads[l].Running? && s.threads[l].fetched.Some?
      && s.threads[l].next < i.segmentLength
      && Placed(i, Position(s.pass, s.slice, s.threads[l].next), l)
    case Exit(l) =>
      && l < i.lanes && s.threads[l].Running? && s.threads[l].fetched.None?
      && s.threads[l].next >= i.segmentLength
  }

  function SetThread<B>(s: State<B>, l: nat, t: Thread<B>): State<B>
    requires l < |s.threads|
  {
    s.(threads := s.threads[l := t])
  }

  ghost function Apply<B>(k: Kernel<B>, i: Instance, s: State<B>, a: Action): (s': State<B>)
    requires WellFormed(i, s) && Enabled(i, s, a)
    ensures WellFormed(i, s')
  {
    match a
    case JoinEarlier =>
      SetThread(s, s.phase.lane - i.threads, Joined).(phase := Creating(s.phase.lane, true))
    case Create =>
      SetThread(s, s.phase.lane, Running(StartIndex(s.pass, s.slice), None))
        .(phase := Creating(s.phase.lane + 1, false))
    case StartDraining => s.(phase := Draining(i.lanes - i.threads))
    case JoinRemaining => SetThread(s, s.phase.lane, Joined).(phase := Draining(s.phase.lane + 1))
    case NextSlice =>
      if s.slice + 1 < SYNC_POINTS then
        State(s.mem, s.pass, s.slice + 1, Creating(0, false), AllUnborn(i.lanes))
      else if s.pass + 1 < i.passes then
        State(s.mem, s.pass + 1, 0, Creating(0, false), AllUnborn(i.lanes))
      else s.(phase := Finished)
    case Load(l) =>
      var p := Position(s.pass, s.slice, s.threads[l].next);
      SetThread(s, l, Running(s.threads[l].next, Some(Fetch(k, i, s.mem, p, l))))
    case Store(l) =>
      var p := Position(s.pass, s.slice, s.threads[l].next);
      SetThread(s, l, Running(s.threads[l].next + 1, None))
        .(mem := Write(k, i, s.mem, p, l, s.threads[l].fetched.value))
    case Exit(l) => SetThread(s, l, Exited)
  }

  /** `acts` is a schedule that leads from `s` to `t`. */
  ghost predicate Runs<B>(k: Kernel<B>, i: Instance, s: State<B>, acts: seq<Action>, t: State<B>)
    requires WellFormed(i, s)
    decreases |acts|
  {
    if acts == [] then s == t
    else Enabled(i, s, acts[0]) && Runs(k, i, Apply(k, i, s, acts[0]), acts[1..], t)
  }

  // ---- the invariant ----

  /** What the sequential filler has in memory when it starts the slice the threads are working on. */
  ghost function Base<B>(k: Kernel<B>, i: Instance, m: Matrix<B>, pass: Word32, slice: nat): (b: Matrix<B>)
    requires Valid(i) && Shaped(i, m) && pass < i.passes && slice <= SYNC_POINTS
    ensures Shaped(i, b)
  {
    Pass(k, i, Passes(k, i, m, pass), pass, slice)
  }

  function Done<B>(i: Instance, s: State<B>, t: Thread<B>): nat {
    match t
    case Unborn => StartIndex(s.pass, s.slice)
    case Running(n, _) => n
    case Exited => i.segmentLength
    case Joined => i.segmentLength
  }

  function DoneAll<B>(i: Instance, s: State<B>): (d: seq<nat>)
    ensures |d| == |s.threads|
  {
    seq(|s.threads|, l requires 0 <= l < |s.threads| => Done(i, s, s.threads[l]))
  }

  /** Create and join happen in lane order, never more than `threads` lanes apart. */
  predicate PoolInv<B>(i: Instance, s: State<B>) {
    match s.phase
    case Creating(lane, slotFree) =>
      && lane <= i.lanes
      && (slotFree ==> i.threads <= lane < i.lanes)
      && forall l: nat | l < |s.threads| ::
           && (s.threads[l].Unborn? <==> l >= lane)
           && (s.threads[l].Joined? <==> l + i.threads < lane + (if slotFree then 1 else 0))
    case Draining(lane) =>
      && i.lanes - i.threads <= lane <= i.lanes
      && forall l: nat | l < |s.threads| :: !s.threads[l].Unborn? && (s.threads[l].Joined? <==> l < lane)
    case Finished => forall l: nat | l < |s.threads| :: s.threads[l].Joined?
  }

  /** A running lane has fetched exactly what it would have fetched running alone. */
  ghost predicate LaneInv<B>(k: Kernel<B>, i: Instance, base: Matrix<B>, s: State<B>, l: nat)
    requires WellFormed(i, s) && Shaped(i, base) && l < i.lanes
  {
    s.threads[l].Running? ==>
      var n := s.threads[l].next;
      && StartIndex(s.pass, s.slice) <= n <= i.segmentLength
      && (s.threads[l].fetched.Some? ==>
            && n < i.segmentLength
            && s.threads[l].fetched.value
                 == Fetch(k, i, Segment(k, i, base, s.pass, s.slice, l, n), Position(s.pass, s.slice, n), l))
  }

  predicate LastSlice<B>(i: Instance, s: State<B>) {
    s.slice + 1 == SYNC_POINTS && s.pass + 1 == i.passes
  }

  ghost predicate Inv<B>(k: Kernel<B>, i: Instance, m: Matrix<B>, s: State<B>) {
    && WellFormed(i, s) && Shaped(i, m) && PoolInv(i, s)
    && (forall l: nat | l < i.lanes :: LaneInv(k, i, Base(k, i, m, s.pass, s.slice), s, l))
    && Merged(k, i, Base(k, i, m, s.pass, s.slice), s.pass, s.slice, DoneAll(i, s), s.mem)
    && (s.phase.Finished? ==> LastSlice(i, s) && s.mem == Passes(k, i, m, i.passes))
  }

  /** The state in which the main thread begins a slice. */
  function SliceBegin<B>(i: Instance, mem: Matrix<B>, pass: Word32, slice: nat): State<B> {
    State(mem, pass, slice, Creating(0, false), AllUnborn(i.lanes))
  }

  lemma SliceBeginInv<B>(k: Kernel<B>, i: Instance, m: Matrix<B>, mem: Matrix<B>, pass: Word32, slice: nat)
    requires Valid(i) && Shaped(i, m) && pass < i.passes && slice < SYNC_POINTS
    requires mem == Base(k, i, m, pass, slice)
    ensures Inv(k, i, m, SliceBegin(i, mem, pass, slice))
  {
    var s := SliceBegin(i, mem, pass, slice);
    MergedAtStart(k, i, mem, pass, slice);
    assert DoneAll(i, s) == Progress(i, pass, slice, 0);
  }

  lemma InitialInv<B>(k: Kernel<B>, i: Instance, m: Matrix<B>)
    requires Valid(i) && Shaped(i, m)
    ensures Inv(k, i, m, Initial(i, m))
  {
    assert Base(k, i, m, 0, 0) == m;
    SliceBeginInv(k, i, m, m, 0, 0);
  }

  /** Actions of the main thread within a slice change no lane's progress and no memory. */
  lemma SameProgress<B>(k: Kernel<B>, i: Instance, m: Matrix<B>, s: State<B>, s': State<B>, l: nat, t: Thread<B>)
    requires Inv(k, i, m, s) && l < i.lanes && !s.phase.Finished? && !s'.phase.Finished?
    requires s' == SetThread(s, l, t).(phase := s'.phase)
    requires Done(i, s, t) == Done(i, s, s.threads[l])
    requires PoolInv(i, s') && LaneInv(k, i, Base(k, i, m, s.pass, s.slice), s', l)
    ensures Inv(k, i, m, s')
  {
    assert DoneAll(i, s') == DoneAll(i, s);
    forall j: nat | j < i.lanes
      ensures LaneInv(k, i, Base(k, i, m, s.pass, s.slice), s', j)
    {
      assert LaneInv(k, i, Base(k, i, m, s.pass, s.slice), s, j);
    }
  }

  lemma CreateInv<B>(k: Kernel<B>, i: Instance, m: Matrix<B>, s: State<B>)
    requires Inv(k, i, m, s) && Enabled(i, s, Create)
    ensures Inv(k, i, m, Apply(k, i, s, Create))
  {
    SameProgress(k, i, m, s, Apply(k, i, s, Create), s.phase.lane, Running(StartIndex(s.pass, s.slice), None));
  }

  lemma JoinEarlierInv<B>(k: Kernel<B>, i: Instance, m: Matrix<B>, s: State<B>)
    requires Inv(k, i, m, s) && Enabled(i, s, JoinEarlier)
    ensures Inv(k, i, m, Apply(k, i, s, JoinEarlier))
  {
    var s' := Apply(k, i, s, JoinEarlier);
    var l: nat := s.phase.lane - i.threads;
    assert PoolInv(i, s') by {
      assert s.threads[l].Exited?;
    }
    SameProgress(k, i, m, s, s', l, Joined);
  }

  lemma JoinRemainingInv<B>(k: Kernel<B>, i: Instance, m: Matrix<B>, s: State<B>)
    requires Inv(k, i, m, s) && Enabled(i, s, JoinRemaining)
    ensures Inv(k, i, m, Apply(k, i, s, JoinRemaining))
  {
    SameProgress(k, i, m, s, Apply(k, i, s, JoinRemaining), s.phase.lane, Joined);
  }

  lemma StartDrainingInv<B>(k: Kernel<B>, i: Instance, m: Matrix<B>, s: State<B>)
    requires Inv(k, i, m, s) && Enabled(i, s, StartDraining)
    ensures Inv(k, i, m, Apply(k, i, s, StartDraining))
  {
    var s' := Apply(k, i, s, StartDraining);
    assert s' == SetThread(s, 0, s.threads[0]).(phase := s'.phase);
    assert LaneInv(k, i, Base(k, i, m, s.pass, s.slice), s, 0);
    SameProgress(k, i, m, s, s', 0, s.threads[0]);
  }

  lemma LoadInv<B>(k: Kernel<B>, i: Instance, m: Matrix<B>, s: State<B>, l: nat)
    requires Inv(k, i, m, s) && Enabled(i, s, Load(l))
    ensures Inv(k, i, m, Apply(k, i, s, Load(l)))
  {
    var base := Base(k, i, m, s.pass, s.slice);
    assert LaneInv(k, i, base, s, l);
    MergedStep(k, i, base, s.pass, s.slice, DoneAll(i, s), s.mem, l);
    var s' := Apply(k, i, s, Load(l));
    SameProgress(k, i, m, s, s', l, s'.threads[l]);
  }

  lemma ExitInv<B>(k: Kernel<B>, i: Instance, m: Matrix<B>, s: State<B>, l: nat)
    requires Inv(k, i, m, s) && Enabled(i, s, Exit(l))
    ensures Inv(k, i, m, Apply(k, i, s, Exit(l)))
  {
    assert LaneInv(k, i, Base(k, i, m, s.pass, s.slice), s, l);
    SameProgress(k, i, m, s, Apply(k, i, s, Exit(l)), l, Exited);
  }

  /** A store moves only the acting lane on. */
  lemma StoreThreads<B>(k: Kernel<B>, i: Instance, m: Matrix<B>, s: State<B>, l: nat)
    requires Inv(k, i, m, s) && Enabled(i, s, Store(l))
    ensures var s' := Apply(k, i, s, Store(l));
      && PoolInv(i, s')
      && DoneAll(i, s') == DoneAll(i, s)[l := s.threads[l].next + 1]
      && forall j: nat | j < i.lanes :: LaneInv(k, i, Base(k, i, m, s.pass, s.slice), s', j)
  {
    var s' := Apply(k, i, s, Store(l));
    forall j: nat | j < i.lanes
      ensures LaneInv(k, i, Base(k, i, m, s.pass, s.slice), s', j)
    {
      assert LaneInv(k, i, Base(k, i, m, s.pass, s.slice), s, j);
    }
  }

  lemma StoreInv<B>(k: Kernel<B>, i: Instance, m: Matrix<B>, s: State<B>, l: nat)
    requires Inv(k, i, m, s) && Enabled(i, s, Store(l))
    ensures Inv(k, i, m, Apply(k, i, s, Store(l)))
  {
    var base := Base(k, i, m, s.pass, s.slice);
    assert LaneInv(k, i, base, s, l);
    StoreThreads(k, i, m, s, l);
    hide Segment, Pass, Passes, Fetch, Write;
    MergedWrite(k, i, base, s.pass, s.slice, DoneAll(i, s), s.mem, l, s.threads[l].fetched.value);
  }

  lemma SliceEnd<B>(k: Kernel<B>, i: Instance, m: Matrix<B>, s: State<B>)
    requires Inv(k, i, m, s) && Enabled(i, s, NextSlice)
    ensures s.mem == Base(k, i, m, s.pass, s.slice + 1)
  {
    MergedIsSlice(k, i, Base(k, i, m, s.pass, s.slice), s.pass, s.slice, DoneAll(i, s), s.mem);
  }

  lemma PassEnd<B>(k: Kernel<B>, i: Instance, m: Matrix<B>, pass: Word32)
    requires Valid(i) && Shaped(i, m) && pass < i.passes
    ensures Base(k, i, m, pass, SYNC_POINTS) == Passes(k, i, m, pass + 1)
    ensures pass + 1 < i.passes ==> Base(k, i, m, pass, SYNC_POINTS) == Base(k, i, m, pass + 1, 0)
  {
  }

  lemma FinishInv<B>(k: Kernel<B>, i: Instance, m: Matrix<B>, s: State<B>)
    requires Inv(k, i, m, s) && Enabled(i, s, NextSlice) && LastSlice(i, s)
    ensures Inv(k, i, m, s.(phase := Finished))
  {
    SliceEnd(k, i, m, s);
    PassEnd(k, i, m, s.pass);
    var s' := s.(phase := Finished);
    assert DoneAll(i, s') == DoneAll(i, s);
    forall j: nat | j < i.lanes
      ensures LaneInv(k, i, Base(k, i, m, s.pass, s.slice), s', j)
    {
      assert LaneInv(k, i, Base(k, i, m, s.pass, s.slice), s, j);
    }
  }

  lemma NextSliceInv<B>(k: Kernel<B>, i: Instance, m: Matrix<B>, s: State<B>)
    requires Inv(k, i, m, s) && Enabled(i, s, NextSlice)
    ensures Inv(k, i, m, Apply(k, i, s, NextSlice))
  {
    if LastSlice(i, s) {
      FinishInv(k, i, m, s);
    } else {
      SliceEnd(k, i, m, s);
      if s.slice + 1 == SYNC_POINTS {
        NextPassBegins(k, i, m, s);
      } else {
        NextSliceBegins(k, i, m, s);
      }
    }
  }

  lemma NextPassBegins<B>(k: Kernel<B>, i: Instance, m: Matrix<B>, s: State<B>)
    requires WellFormed(i, s) && Shaped(i, m) && Enabled(i, s, NextSlice)
    requires s.slice + 1 == SYNC_POINTS && s.pass + 1 < i.passes
    requires s.mem == Base(k, i, m, s.pass, SYNC_POINTS)
    ensures Inv(k, i, m, Apply(k, i, s, NextSlice))
  {
    PassEnd(k, i, m, s.pass);
    SliceBeginInv(k, i, m, s.mem, s.pass + 1, 0);
    assert Apply(k, i, s, NextSlice) == SliceBegin(i, s.mem, s.pass + 1, 0);
  }

  lemma NextSliceBegins<B>(k: Kernel<B>, i: Instance, m: Matrix<B>, s: State<B>)
    requires WellFormed(i, s) && Shaped(i, m) && Enabled(i, s, NextSlice)
    requires s.slice + 1 < SYNC_POINTS
    requires s.mem == Base(k, i, m, s.pass, s.slice + 1)
    ensures Inv(k, i, m, Apply(k, i, s, NextSlice))
  {
    SliceBeginInv(k, i, m, s.mem, s.pass, s.slice + 1);
    assert Apply(k, i, s, NextSlice) == SliceBegin(i, s.mem, s.pass, s.slice + 1);
  }

  lemma StepInv<B>(k: Kernel<B>, i: Instance, m: Matrix<B>, s: State<B>, a: Action)
    requires Inv(k, i, m, s) && Enabled(i, s, a)
    ensures Inv(k, i, m, Apply(k, i, s, a))
  {
    match a
    case JoinEarlier => JoinEarlierInv(k, i, m, s);
    case Create => CreateInv(k, i, m, s);
    case StartDraining => StartDrainingInv(k, i, m, s);
    case JoinRemaining => JoinRemainingInv(k, i, m, s);
    case NextSlice => NextSliceInv(k, i, m, s);
    case Load(l) => LoadInv(k, i, m, s, l);
    case Store(l) => StoreInv(k, i, m, s, l);
    case Exit(l) => ExitInv(k, i, m, s, l);
  }

  lemma {:induction false} RunInv<B>(
    k: Kernel<B>, i: Instance, m: Matrix<B>, s: State<B>, acts: seq<Action>, t: State<B>)
    requires Inv(k, i, m, s) && Runs(k, i, s, acts, t)
    ensures Inv(k, i, m, t)
    decreases |acts|
  {
    if acts != [] {
      StepInv(k, i, m, s, acts[0]);
      RunInv(k, i, m, Apply(k, i, s, acts[0]), acts[1..], t);
    }
  }

  /**
   * Schedule independence: every schedule that lets the multi-threaded filler finish leaves in
   * memory exactly what the single-threaded filler leaves there.
   */
  lemma ScheduleIndependence<B>(k: Kernel<B>, i: Instance, m: Matrix<B>, acts: seq<Action>, t: State<B>)
    requires Valid(i) && Shaped(i, m) && Runs(k, i, Initial(i, m), acts, t) && t.phase.Finished?
    ensures t.mem == Passes(k, i, m, i.passes)
  {
    InitialInv(k, i, m);
    RunInv(k, i, m, Initial(i, m), acts, t);
  }
}
