/**
 * The step callbacks ("solout" functions) that the propagator calls after every
 * accepted integration step. Each one appends the current sample (state, time)
 * to a list its caller owns and only then decides, from the state alone,
 * whether integration goes on (CONTINUE, 0) or stops (STOP, -1).
 */
module StopFuncs {
  import opened Samples

  const STOP: int := -1
  const CONTINUE: int := 0

  /** The caller-owned list of samples that a callback appends to. */
  class SampleList {
    var rows: seq<Sample>

    constructor ()
      ensures rows == []
    {
      rows := [];
    }

    /** `list.append`. */
    method Append(r: Sample)
      modifies this
      ensures rows == old(rows) + [r]
    {
      rows := rows + [r];
    }
  }

  /** The decision of `stopY0m`: stop once y has become negative. */
  function Y0mCode(s: State): (code: int)
    ensures code == STOP || code == CONTINUE
    ensures code == STOP <==> s[1] < 0.0
  {
    if s[1] < 0.0 then STOP else CONTINUE
  }

  /** The decision of `stopPlanes`: stop once x has left [planes[0], planes[1]]. */
  function PlanesCode(s: State, planes: seq<real>): (code: int)
    requires |planes| >= 2
    ensures code == STOP || code == CONTINUE
    ensures code == STOP <==> s[0] < planes[0] || s[0] > planes[1]
  {
    if s[0] < planes[0] || s[0] > planes[1] then STOP else CONTINUE
  }

  /** The decision of `stop3Planes`: stop once x has left [planes[0], planes[1]] or |y| exceeds planes[2]. */
  function ThreePlanesCode(s: State, planes: seq<real>): (code: int)
    requires |planes| >= 3
    ensures code == STOP || code == CONTINUE
    ensures code == STOP <==> s[0] < planes[0] || s[0] > planes[1] || Abs(s[1]) > planes[2]
  {
    if s[0] < planes[0] || s[0] > planes[1] || Abs(s[1]) > planes[2] then STOP else CONTINUE
  }

  /** The three-plane rule stops at least whenever the two-plane rule with the same x-planes does. */
  lemma ThreePlanesCoversPlanes(s: State, planes: seq<real>)
    requires |planes| >= 3
    ensures PlanesCode(s, planes) == STOP ==> ThreePlanesCode(s, planes) == STOP
    ensures ThreePlanesCode(s, planes) == CONTINUE ==> PlanesCode(s, planes) == CONTINUE
  {
  }

  /** Records the sample and never asks for a stop. */
  method StopNull(t: real, s: State, lst: SampleList) returns (code: int)
    modifies lst
    ensures lst.rows == old(lst.rows) + [Row(s, t)]
    ensures code == CONTINUE
  {
    lst.Append(Row(s, t));
    code := CONTINUE;
  }

  /** Records the sample, then stops when y < 0. */
  method StopY0m(t: real, s: State, lst: SampleList) returns (code: int)
    modifies lst
    ensures lst.rows == old(lst.rows) + [Row(s, t)]
    ensures code == Y0mCode(s)
  {
    lst.Append(Row(s, t));
    if s[1] < 0.0 {
      return STOP;
    }
    return CONTINUE;
  }

  /** Records the sample, then stops when x < planes[0] or x > planes[1]. */
  method StopPlanes(t: real, s: State, lst: SampleList, planes: seq<real>) returns (code: int)
    requires |planes| >= 2
    modifies lst
    ensures lst.rows == old(lst.rows) + [Row(s, t)]
    ensures code == PlanesCode(s, planes)
  {
    lst.Append(Row(s, t));
    if s[0] < planes[0] || s[0] > planes[1] {
      return STOP;
    }
    return CONTINUE;
  }

  /** Records the sample, then stops when x < planes[0], x > planes[1] or |y| > planes[2]. */
  method Stop3Planes(t: real, s: State, lst: SampleList, planes: seq<real>) returns (code: int)
    requires |planes| >= 3
    modifies lst
    ensures lst.rows == old(lst.rows) + [Row(s, t)]
    ensures code == ThreePlanesCode(s, planes)
  {
    lst.Append(Row(s, t));
    if s[0] < planes[0] || s[0] > planes[1] || Abs(s[1]) > planes[2] {
      return STOP;
    }
    return CONTINUE;
  }

  /** The four interchangeable callbacks a caller may hand to the propagator. */
  datatype StopFunc = Null | Y0m | TwoPlanes | ThreePlanes

  /** How many plane values a callback reads from its keyword arguments. */
  function PlanesNeeded(f: StopFunc): nat
  {
    match f
    case Null => 0
    case Y0m => 0
    case TwoPlanes => 2
    case ThreePlanes => 3
  }

  /** The stop/continue decision of callback `f` on state `s`. */
  function Decision(f: StopFunc, s: State, planes: seq<real>): (code: int)
    requires |planes| >= PlanesNeeded(f)
    ensures code == STOP || code == CONTINUE
    ensures f.Null? ==> code == CONTINUE
  {
    match f
    case Null => CONTINUE
    case Y0m => Y0mCode(s)
    case TwoPlanes => PlanesCode(s, planes)
    case ThreePlanes => ThreePlanesCode(s, planes)
  }

  /** Calls callback `f` on one step: the sample is recorded whatever the decision. */
  method Call(f: StopFunc, t: real, s: State, lst: SampleList, planes: seq<real>) returns (code: int)
    requires |planes| >= PlanesNeeded(f)
    modifies lst
    ensures lst.rows == old(lst.rows) + [Row(s, t)]
    ensures code == Decision(f, s, planes)
  {
    match f
    case Null => code := StopNull(t, s, lst);
    case Y0m => code := StopY0m(t, s, lst);
    case TwoPlanes => code := StopPlanes(t, s, lst, planes);
    case ThreePlanes => code := Stop3Planes(t, s, lst, planes);
  }
}
