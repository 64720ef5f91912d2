/**
 * Data-independent addressing (sections 3.4.1.2 and 3.4.1.3 of RFC 9106): which blocks are read and
 * written does not depend on what the memory holds, under any schedule of the lane threads.
 */
module Addressing {
  import opened Geometry
  import opened Filling
  import opened Schedule

  /** The cells one block-step touches: it reads (lane, prev) and (refLane, ref) and writes (lane, column). */
  datatype Access = NoAccess | Reading(lane: nat, prev: int, refLane: nat, ref: nat) | Writing(lane: nat, column: nat)

  function AccessOf<B>(k: Kernel<B>, i: Instance, m: Matrix<B>, p: Position, lane: nat): Access
    requires Placed(i, p, lane) && Shaped(i, m)
  {
    ColumnInLane(i, p, lane);
    var rand := PseudoRand(k, i, p, lane, m[lane][PreviousColumn(i, p)]);
    Reading(lane, PreviousColumn(i, p), ReferenceLane(i, p, lane, rand), ReferenceColumn(i, p, lane, rand))
  }

  ghost function Observed<B>(k: Kernel<B>, i: Instance, s: State<B>, a: Action): Access
    requires WellFormed(i, s) && Enabled(i, s, a)
  {
    match a
    case Load(l) => AccessOf(k, i, s.mem, Position(s.pass, s.slice, s.threads[l].next), l)
    case Store(l) => Writing(l, Column(i, Position(s.pass, s.slice, s.threads[l].next)))
    case _ => NoAccess
  }

  /** The accesses of a schedule, in order. */
  ghost function Trace<B>(k: Kernel<B>, i: Instance, s: State<B>, acts: seq<Action>, t: State<B>): seq<Access>
    requires WellFormed(i, s) && Runs(k, i, s, acts, t)
    decreases |acts|
  {
    if acts == [] then []
    else [Observed(k, i, s, acts[0])] + Trace(k, i, Apply(k, i, s, acts[0]), acts[1..], t)
  }

  predicate SameThread<B>(a: Thread<B>, b: Thread<B>) {
    match a
    case Unborn => b.Unborn?
    case Running(n, f) => b.Running? && b.next == n && f.Some? == b.fetched.Some?
    case Exited => b.Exited?
    case Joined => b.Joined?
  }

  /** The states differ only in block contents: memory, and what running threads have fetched. */
  ghost predicate SameControl<B>(s: State<B>, t: State<B>) {
    && s.pass == t.pass && s.slice == t.slice && s.phase == t.phase
    && |s.threads| == |t.threads|
    && forall l | 0 <= l < |s.threads| :: SameThread(s.threads[l], t.threads[l])
  }

  /** All Argon2i runs, and Argon2id runs while they are in the first half of the first pass. */
  predicate Independent<B>(i: Instance, s: State<B>) {
    DataIndependent(i, Position(s.pass, s.slice, 0))
  }

  lemma SameStep<B>(k: Kernel<B>, i: Instance, s: State<B>, t: State<B>, a: Action)
    requires WellFormed(i, s) && WellFormed(i, t) && SameControl(s, t) && Enabled(i, s, a)
    ensures Enabled(i, t, a) && SameControl(Apply(k, i, s, a), Apply(k, i, t, a))
    ensures Independent(i, s) ==> Observed(k, i, s, a) == Observed(k, i, t, a)
  {
    hide Fetch, Write, ReferenceLane, ReferenceColumn;
  }

  /** Slices are only ever left forwards, so an earlier state is addressed independently too. */
  lemma EarlierIndependent<B>(k: Kernel<B>, i: Instance, s: State<B>, a: Action)
    requires WellFormed(i, s) && Enabled(i, s, a) && Independent(i, Apply(k, i, s, a))
    ensures Independent(i, s)
  {
    hide Fetch, Write;
  }

  lemma {:induction false} EarlierInRun<B>(k: Kernel<B>, i: Instance, s: State<B>, acts: seq<Action>, t: State<B>)
    requires WellFormed(i, s) && Runs(k, i, s, acts, t) && Independent(i, t)
    ensures Independent(i, s)
    decreases |acts|
  {
    hide Apply, Enabled, Independent;
    if acts != [] {
      EarlierInRun(k, i, Apply(k, i, s, acts[0]), acts[1..], t);
      EarlierIndependent(k, i, s, acts[0]);
    }
  }

  /** Replaying a schedule on other memory contents is possible and touches the same cells in the same order. */
  lemma {:induction false} Replay<B>(
    k: Kernel<B>, i: Instance, s: State<B>, acts: seq<Action>, t: State<B>, s': State<B>) returns (t': State<B>)
    requires WellFormed(i, s) && WellFormed(i, s') && SameControl(s, s')
    requires Runs(k, i, s, acts, t) && Independent(i, t)
    ensures Runs(k, i, s', acts, t') && SameControl(t, t')
    ensures Trace(k, i, s, acts, t) == Trace(k, i, s', acts, t')
    decreases |acts|
  {
    hide Apply, Enabled, Independent, SameControl, Observed;
    if acts == [] {
      t' := s';
    } else {
      EarlierInRun(k, i, s, acts, t);
      SameStep(k, i, s, s', acts[0]);
      t' := Replay(k, i, Apply(k, i, s, acts[0]), acts[1..], t, Apply(k, i, s', acts[0]));
    }
  }

  /**
   * Two fillings with the same parameters but different memory contents, run under the same schedule,
   * read and write the same blocks in the same order: for Argon2i to the end, for Argon2id as long as
   * the run is in the first two slices of pass 0.
   */
  lemma DataIndependentTrace<B>(k: Kernel<B>, i: Instance, a: Matrix<B>, b: Matrix<B>, acts: seq<Action>, t: State<B>)
    requires Valid(i) && Shaped(i, a) && Shaped(i, b) && Runs(k, i, Initial(i, a), acts, t)
    requires i.kind.Argon2i? || (i.kind.Argon2id? && t.pass == 0 && t.slice < 2)
    ensures exists t' ::
      Runs(k, i, Initial(i, b), acts, t') && Trace(k, i, Initial(i, a), acts, t) == Trace(k, i, Initial(i, b), acts, t')
  {
    assert Independent(i, t);
    var t' := Replay(k, i, Initial(i, a), acts, t, Initial(i, b));
  }
}
