/**
 * Propagation in the CRTBP, with the numerical integrator as an oracle:
 *  - `PropCrtbp` drives a step callback over the integrator's accepted steps and
 *    returns what the callback recorded;
 *  - `Prop2Planes` classifies where a trajectory left the three-plane box;
 *  - `PropNRevsPlanes` chains corrected revolutions, with the velocity solver
 *    and the fixed-duration propagator as oracles.
 * The mass parameter mu and the integrator settings are folded into the oracles.
 */
module CrtbpProp {
  import opened Samples
  import opened StopFuncs

  // ---------------------------------------------------------------------------
  // propCrtbp

  /** One accepted integrator step as reported to the callback: its time and state. */
  datatype Step = Step(t: real, s: State)

  /** The callback in effect: the caller's `stopf`, else `stopNull`. */
  function Chosen(stopf: Option<StopFunc>): (f: StopFunc)
    ensures stopf.None? ==> f == Null
    ensures stopf.Some? ==> f == stopf.value
  {
    match stopf
    case Some(f) => f
    case None => Null
  }

  /** The samples callback `f` records over `steps`: one per step, up to and including the first step it stops on. */
  function Recorded(f: StopFunc, planes: seq<real>, steps: seq<Step>): (rows: seq<Sample>)
    requires |planes| >= PlanesNeeded(f)
    ensures |rows| <= |steps|
    ensures steps != [] ==> rows != []
    decreases |steps|
  {
    if steps == [] then []
    else
      [Row(steps[0].s, steps[0].t)]
      + (if Decision(f, steps[0].s, planes) == STOP then [] else Recorded(f, planes, steps[1..]))
  }

  /** Every recorded sample is the sample of the step at the same position. */
  lemma {:induction false} RecordedInOrder(f: StopFunc, planes: seq<real>, steps: seq<Step>, i: nat)
    requires |planes| >= PlanesNeeded(f)
    requires i < |Recorded(f, planes, steps)|
    ensures i < |steps| && Recorded(f, planes, steps)[i] == Row(steps[i].s, steps[i].t)
    decreases i
  {
    if i > 0 {
      RecordedInOrder(f, planes, steps[1..], i - 1);
    }
  }

  /** Recording stops exactly at the first stopping step: all earlier steps continued, and that step is itself recorded. */
  lemma {:induction false} RecordedStopsAtFirstStop(f: StopFunc, planes: seq<real>, steps: seq<Step>)
    requires |planes| >= PlanesNeeded(f)
    ensures var n := |Recorded(f, planes, steps)|;
      && (forall i :: 0 <= i < n - 1 ==> Decision(f, steps[i].s, planes) == CONTINUE)
      && (n < |steps| ==> n > 0 && Decision(f, steps[n - 1].s, planes) == STOP)
    decreases |steps|
  {
    if steps != [] && Decision(f, steps[0].s, planes) != STOP {
      var rest := Recorded(f, planes, steps[1..]);
      RecordedStopsAtFirstStop(f, planes, steps[1..]);
      assert Recorded(f, planes, steps) == [Row(steps[0].s, steps[0].t)] + rest;
      forall i | 1 <= i < |rest| ensures Decision(f, steps[i].s, planes) == CONTINUE {
        assert steps[i] == steps[1..][i - 1];
      }
    }
  }

  /** A callback that continues on every step records every step, in order. */
  lemma {:induction false} NeverStopRecordsAll(f: StopFunc, planes: seq<real>, steps: seq<Step>)
    requires |planes| >= PlanesNeeded(f)
    requires forall i :: 0 <= i < |steps| ==> Decision(f, steps[i].s, planes) == CONTINUE
    ensures |Recorded(f, planes, steps)| == |steps|
    decreases |steps|
  {
    if steps != [] {
      forall i | 0 <= i < |steps| - 1 ensures Decision(f, steps[1..][i].s, planes) == CONTINUE {
        assert steps[1..][i] == steps[i + 1];
      }
      NeverStopRecordsAll(f, planes, steps[1..]);
    }
  }

  /** `stopNull` records every step: the result holds one sample per step, the i-th being step i. */
  lemma NullRecordsAll(planes: seq<real>, steps: seq<Step>)
    ensures |Recorded(Null, planes, steps)| == |steps|
    ensures forall i :: 0 <= i < |steps| ==> Recorded(Null, planes, steps)[i] == Row(steps[i].s, steps[i].t)
  {
    NeverStopRecordsAll(Null, planes, steps);
    forall i | 0 <= i < |steps| ensures Recorded(Null, planes, steps)[i] == Row(steps[i].s, steps[i].t) {
      RecordedInOrder(Null, planes, steps, i);
    }
  }

  /** Recording step i after the samples of the steps before it keeps to `Recorded`. */
  lemma RecordedFrom(f: StopFunc, planes: seq<real>, steps: seq<Step>, i: nat, before: seq<Sample>)
    requires |planes| >= PlanesNeeded(f)
    requires i < |steps|
    requires before + Recorded(f, planes, steps[i..]) == Recorded(f, planes, steps)
    ensures var code := Decision(f, steps[i].s, planes);
            (before + [Row(steps[i].s, steps[i].t)])
            + (if code == STOP then [] else Recorded(f, planes, steps[i + 1..]))
            == Recorded(f, planes, steps)
  {
    var here := steps[i..];
    assert here[0] == steps[i] && here[1..] == steps[i + 1..];
    var rest := if Decision(f, steps[i].s, planes) == STOP then [] else Recorded(f, planes, steps[i + 1..]);
    assert Recorded(f, planes, here) == [Row(steps[i].s, steps[i].t)] + rest;
    ConcatAssoc(before, [Row(steps[i].s, steps[i].t)], rest);
  }

  /**
   * `propCrtbp`: runs the chosen callback (`stopNull` when no `stopf` is given) on each
   * accepted step in turn, halting at the first STOP, and returns the list it filled.
   */
  method PropCrtbp(steps: seq<Step>, stopf: Option<StopFunc>, planes: seq<real>) returns (rows: seq<Sample>)
    requires |planes| >= PlanesNeeded(Chosen(stopf))
    ensures rows == Recorded(Chosen(stopf), planes, steps)
  {
    var f := Chosen(stopf);
    var lst := new SampleList();
    var i := 0;
    var code := CONTINUE;
    assert steps[0..] == steps;
    while i < |steps| && code != STOP
      invariant 0 <= i <= |steps|
      invariant code == STOP || code == CONTINUE
      invariant lst.rows + (if code == STOP then [] else Recorded(f, planes, steps[i..]))
                == Recorded(f, planes, steps)
    {
      ghost var before := lst.rows;
      code := Call(f, steps[i].t, steps[i].s, lst, planes);
      RecordedFrom(f, planes, steps, i, before);
      i := i + 1;
    }
    rows := lst.rows;
  }

  // ---------------------------------------------------------------------------
  // prop2Planes

  /** `_stopPlanes`: the three-plane decision, recording nothing. */
  function BoxStop(s: State, planes: seq<real>): (code: int)
    requires |planes| >= 3
    ensures code == ThreePlanesCode(s, planes)
  {
    if s[0] < planes[0] || s[0] > planes[1] || Abs(s[1]) > planes[2] then STOP else CONTINUE
  }

  /**
   * The state the integrator returns when `BoxStop` is its callback and `trace` lists the
   * states of its accepted steps: the first one it stops on, else the last one reached.
   */
  function FinalState(trace: seq<State>, current: State, planes: seq<real>): (s: State)
    requires |planes| >= 3
    ensures s == current || s in trace
    decreases |trace|
  {
    if trace == [] then current
    else if BoxStop(trace[0], planes) == STOP then trace[0]
    else FinalState(trace[1..], trace[0], planes)
  }

  /** When some step leaves the box, the final state is the first such step. */
  lemma {:induction false} FinalStateAtFirstExit(trace: seq<State>, current: State, planes: seq<real>, k: nat)
    requires |planes| >= 3
    requires k < |trace| && BoxStop(trace[k], planes) == STOP
    requires forall i :: 0 <= i < k ==> BoxStop(trace[i], planes) == CONTINUE
    ensures FinalState(trace, current, planes) == trace[k]
    decreases k
  {
    if k > 0 {
      forall i | 0 <= i < k - 1 ensures BoxStop(trace[1..][i], planes) == CONTINUE {
        assert trace[1..][i] == trace[i + 1];
      }
      FinalStateAtFirstExit(trace[1..], trace[0], planes, k - 1);
    }
  }

  /** When no step leaves the box, the final state is the last one (the start when there is none). */
  lemma {:induction false} FinalStateWithoutExit(trace: seq<State>, current: State, planes: seq<real>)
    requires |planes| >= 3
    requires forall i :: 0 <= i < |trace| ==> BoxStop(trace[i], planes) == CONTINUE
    ensures FinalState(trace, current, planes) == if trace == [] then current else trace[|trace| - 1]
    decreases |trace|
  {
    if trace != [] {
      forall i | 0 <= i < |trace| - 1 ensures BoxStop(trace[1..][i], planes) == CONTINUE {
        assert trace[1..][i] == trace[i + 1];
      }
      FinalStateWithoutExit(trace[1..], trace[0], planes);
    }
  }

  /**
   * `prop2Planes`: integrates from `s0` (`run(s0)` lists the states of the accepted steps)
   * with `BoxStop` as callback and classifies the state it ends in: 1 when beyond x = planes[1]
   * or |y| = planes[2], otherwise 0.
   */
  function Prop2Planes(run: State -> seq<State>, s0: State, planes: seq<real>): (p: int)
    requires |planes| >= 3
    ensures p == 0 || p == 1
  {
    var s1 := FinalState(run(s0), s0, planes);
    if s1[0] > planes[1] || Abs(s1[1]) > planes[2] then 1 else 0
  }

  /**
   * Classification by the first exit: 1 when the trajectory first leaves through x > planes[1]
   * or |y| > planes[2]; 0 when that first exit is through x < planes[0] alone.
   */
  lemma ClassifyFirstExit(run: State -> seq<State>, s0: State, planes: seq<real>, k: nat)
    requires |planes| >= 3
    requires k < |run(s0)| && BoxStop(run(s0)[k], planes) == STOP
    requires forall i :: 0 <= i < k ==> BoxStop(run(s0)[i], planes) == CONTINUE
    ensures var e := run(s0)[k];
      && (Prop2Planes(run, s0, planes) == 1 <==> e[0] > planes[1] || Abs(e[1]) > planes[2])
      && (Prop2Planes(run, s0, planes) == 0 <==> e[0] < planes[0] && e[0] <= planes[1] && Abs(e[1]) <= planes[2])
  {
    FinalStateAtFirstExit(run(s0), s0, planes, k);
  }

  /** A trajectory that reaches the time bound without leaving the box is classified 0. */
  lemma ClassifyNoExit(run: State -> seq<State>, s0: State, planes: seq<real>)
    requires |planes| >= 3
    requires run(s0) != []
    requires forall i :: 0 <= i < |run(s0)| ==> BoxStop(run(s0)[i], planes) == CONTINUE
    ensures Prop2Planes(run, s0, planes) == 0
  {
    FinalStateWithoutExit(run(s0), s0, planes);
  }

  // ---------------------------------------------------------------------------
  // propNRevsPlanes

  /** The correction angle, in degrees, of the first revolution. */
  const FIRST_BETA: real := 90.0

  /** The fixed-duration propagator always reports the initial point, so it never returns an empty array. */
  ghost predicate ReportsStart(propagate: State -> seq<Sample>)
  {
    forall s :: |propagate(s)| > 0
  }

  /** The trajectory accumulated so far and the corrections applied, one per revolution. */
  datatype Chain = Chain(arr: seq<Sample>, dvs: seq<Vec2>)

  /** The correction angle of revolution `i`. */
  function BetaOf(beta: real, i: nat): real
  {
    if i == 0 then FIRST_BETA else beta
  }

  /** The state revolution `i` starts from, before its correction: `s0`, then the last accumulated row without its time. */
  function StartOf(solver: (State, real) -> Vec2, propagate: State -> seq<Sample>, s0: State, beta: real, i: nat): State
    requires ReportsStart(propagate)
    decreases i, 0
  {
    if i == 0 then s0 else var c := Revs(solver, propagate, s0, beta, i - 1); StateOf(c.arr[|c.arr| - 1])
  }

  /** The correction computed for revolution `i`. */
  function CorrectionOf(solver: (State, real) -> Vec2, propagate: State -> seq<Sample>, s0: State, beta: real, i: nat): Vec2
    requires ReportsStart(propagate)
    decreases i, 1
  {
    solver(StartOf(solver, propagate, s0, beta, i), BetaOf(beta, i))
  }

  /** The samples revolution `i` produces: propagation from its start state with the correction added to vx, vy. */
  function Revolution(solver: (State, real) -> Vec2, propagate: State -> seq<Sample>, s0: State, beta: real, i: nat): (rev: seq<Sample>)
    requires ReportsStart(propagate)
    ensures |rev| > 0
    decreases i, 2
  {
    propagate(AddVelocity(StartOf(solver, propagate, s0, beta, i), CorrectionOf(solver, propagate, s0, beta, i)))
  }

  /** The chain after revolutions 0..k: later revolutions are appended without their first sample. */
  function Revs(solver: (State, real) -> Vec2, propagate: State -> seq<Sample>, s0: State, beta: real, k: nat): (c: Chain)
    requires ReportsStart(propagate)
    ensures |c.arr| > 0 && |c.dvs| == k + 1
    decreases k, 3
  {
    var rev := Revolution(solver, propagate, s0, beta, k);
    var v := CorrectionOf(solver, propagate, s0, beta, k);
    if k == 0 then Chain(rev, [v])
    else
      var c := Revs(solver, propagate, s0, beta, k - 1);
      Chain(c.arr + rev[1..], c.dvs + [v])
  }

  /** |rev_0| plus |rev_i| - 1 for each later revolution i <= k. */
  function ChainLength(solver: (State, real) -> Vec2, propagate: State -> seq<Sample>, s0: State, beta: real, k: nat): int
    requires ReportsStart(propagate)
  {
    if k == 0 then |Revolution(solver, propagate, s0, beta, 0)|
    else ChainLength(solver, propagate, s0, beta, k - 1) + |Revolution(solver, propagate, s0, beta, k)| - 1
  }

  /** The accumulated trajectory is as long as all revolutions together, less one duplicated sample per later revolution. */
  lemma {:induction false} RevsLength(solver: (State, real) -> Vec2, propagate: State -> seq<Sample>, s0: State, beta: real, k: nat)
    requires ReportsStart(propagate)
    ensures |Revs(solver, propagate, s0, beta, k).arr| == ChainLength(solver, propagate, s0, beta, k)
  {
    if k > 0 {
      RevsLength(solver, propagate, s0, beta, k - 1);
    }
  }

  /** Later revolutions only append: the chain after j revolutions is a prefix of the chain after k >= j. */
  lemma {:induction false} RevsPrefix(solver: (State, real) -> Vec2, propagate: State -> seq<Sample>, s0: State, beta: real, j: nat, k: nat)
    requires ReportsStart(propagate)
    requires j <= k
    ensures Revs(solver, propagate, s0, beta, j).arr <= Revs(solver, propagate, s0, beta, k).arr
    ensures Revs(solver, propagate, s0, beta, j).dvs <= Revs(solver, propagate, s0, beta, k).dvs
    decreases k
  {
    if j < k {
      RevsPrefix(solver, propagate, s0, beta, j, k - 1);
    }
  }

  /**
   * The i-th recorded correction is the solver's answer for revolution i: at 90 degrees on the
   * uncorrected `s0` for i = 0, at the caller's angle on the previous revolution's end state after that.
   */
  lemma CorrectionAt(solver: (State, real) -> Vec2, propagate: State -> seq<Sample>, s0: State, beta: real, k: nat, i: nat)
    requires ReportsStart(propagate)
    requires i <= k
    ensures Revs(solver, propagate, s0, beta, k).dvs[i]
            == if i == 0 then solver(s0, FIRST_BETA)
               else var c := Revs(solver, propagate, s0, beta, i - 1); solver(StateOf(c.arr[|c.arr| - 1]), beta)
  {
    RevsPrefix(solver, propagate, s0, beta, i, k);
    var c := Revs(solver, propagate, s0, beta, i);
    assert c.dvs[i] == CorrectionOf(solver, propagate, s0, beta, i);
  }

  /** Revolution i's samples, first one dropped for i > 0, sit right after the chain of the earlier revolutions. */
  lemma RevolutionPlacement(solver: (State, real) -> Vec2, propagate: State -> seq<Sample>, s0: State, beta: real, k: nat, i: nat)
    requires ReportsStart(propagate)
    requires 0 < i <= k
    ensures var before := Revs(solver, propagate, s0, beta, i - 1).arr;
            var rev := Revolution(solver, propagate, s0, beta, i);
            var all := Revs(solver, propagate, s0, beta, k).arr;
            && |before| + |rev| - 1 <= |all|
            && all[|before|..|before| + |rev| - 1] == rev[1..]
  {
    RevsPrefix(solver, propagate, s0, beta, i, k);
    var before := Revs(solver, propagate, s0, beta, i - 1).arr;
    var rev := Revolution(solver, propagate, s0, beta, i);
    var mid := Revs(solver, propagate, s0, beta, i).arr;
    assert mid == before + rev[1..];
    assert mid[|before|..] == rev[1..];
  }

  /**
   * `propNRevsPlanes`: revolution 0 corrects `s0` at 90 degrees and propagates; each of the
   * remaining N - 1 revolutions restarts from the last accumulated row without its time,
   * corrects it at `beta` and appends all but the first sample. The corrections are
   * returned only when `retDV` holds.
   */
  method PropNRevsPlanes(solver: (State, real) -> Vec2, propagate: State -> seq<Sample>, s0: State, beta: real,
                         n: int, retDV: bool)
    returns (arr: seq<Sample>, dV: Option<seq<Vec2>>)
    requires ReportsStart(propagate)
    ensures var c := Revs(solver, propagate, s0, beta, if n > 1 then n - 1 else 0);
      && arr == c.arr
      && dV == if retDV then Some(c.dvs) else None
  {
    var v := solver(s0, FIRST_BETA);
    var s1 := AddVelocity(s0, v);
    var dvs := [v];
    var curRev := propagate(s1);
    arr := curRev;
    var i := 0;
    while i < n - 1
      invariant 0 <= i && (n > 1 ==> i <= n - 1) && (n <= 1 ==> i == 0)
      invariant Revs(solver, propagate, s0, beta, i) == Chain(arr, dvs)
    {
      s1 := StateOf(arr[|arr| - 1]);
      assert s1 == StartOf(solver, propagate, s0, beta, i + 1);
      v := solver(s1, beta);
      assert v == CorrectionOf(solver, propagate, s0, beta, i + 1);
      s1 := AddVelocity(s1, v);
      curRev := propagate(s1);
      assert curRev == Revolution(solver, propagate, s0, beta, i + 1);
      arr := arr + curRev[1..];
      dvs := dvs + [v];
      i := i + 1;
    }
    if retDV {
      dV := Some(dvs);
    } else {
      dV := None;
    }
  }
}
