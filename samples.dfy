/**
 * The data model shared by the propagation, stopping and correction modules:
 * CRTBP state vectors, trajectory samples and velocity corrections.
 * Reals are exact here; the floating-point rounding of the original is not modelled.
 */
module Samples {

  datatype Option<T> = None | Some(value: T)

  /** A state vector (x, y, z, vx, vy, vz) in the rotating, dimensionless frame. */
  type State = s: seq<real> | |s| == 6 witness [0.0, 0.0, 0.0, 0.0, 0.0, 0.0]

  /** A trajectory sample: the six state components followed by the time. */
  type Sample = r: seq<real> | |r| == 7 witness [0.0, 0.0, 0.0, 0.0, 0.0, 0.0, 0.0]

  /** A pair in the xy-plane: a velocity correction (dVx, dVy) or a unit direction. */
  datatype Vec2 = Vec2(x: real, y: real)

  /** The sample `hstack((s, t))` that the stop callbacks record. */
  function Row(s: State, t: real): (r: Sample)
    ensures r[6] == t
    ensures forall i :: 0 <= i < 6 ==> r[i] == s[i]
  {
    s + [t]
  }

  /** A sample with its time column dropped, as `arr[-1, :-1]` takes it. */
  function StateOf(r: Sample): (s: State)
    ensures forall i :: 0 <= i < 6 ==> s[i] == r[i]
  {
    r[..6]
  }

  /** Dropping the time column undoes `Row`. */
  lemma StateOfRow(s: State, t: real)
    ensures StateOf(Row(s, t)) == s
  {
  }

  /** Concatenation regroups freely. */
  lemma ConcatAssoc<T>(a: seq<T>, b: seq<T>, c: seq<T>)
    ensures a + (b + c) == (a + b) + c
  {
  }

  /** `math.fabs`. */
  function Abs(x: real): (r: real)
    ensures r >= 0.0
    ensures r == x || r == -x
  {
    if x < 0.0 then -x else x
  }

  /** `v * beta_n`: a magnitude along a direction. */
  function Scale(v: real, dir: Vec2): Vec2
  {
    Vec2(v * dir.x, v * dir.y)
  }

  /** A copy of `s` whose components 3 and 4 (vx, vy) are increased by `dv`; nothing else changes. */
  function AddVelocity(s: State, dv: Vec2): (r: State)
    ensures r[3] == s[3] + dv.x && r[4] == s[4] + dv.y
    ensures forall i :: 0 <= i < 6 && i != 3 && i != 4 ==> r[i] == s[i]
  {
    s[..3] + [s[3] + dv.x, s[4] + dv.y] + s[5..]
  }

  /** A zero correction leaves the state as it was. */
  lemma AddZeroVelocity(s: State)
    ensures AddVelocity(s, Vec2(0.0, 0.0)) == s
  {
    var r := AddVelocity(s, Vec2(0.0, 0.0));
    assert forall i :: 0 <= i < 6 ==> r[i] == s[i];
  }
}
