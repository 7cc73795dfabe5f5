/**
 * `findVPlanes`: the sign-tracked step-halving search for the velocity correction
 * magnitude v along a direction beta_n. A deterministic 0/1 classifier of states
 * (`prop2Planes` with mu, the planes and the integrator settings fixed) drives it.
 * The baseline classification p of the uncorrected state is computed once; after
 * that, each probe that classifies like p advances v by dv, and each probe that does
 * not undoes the last step and halves dv.
 */
module FindVel {
  import opened Samples

  /** The probed state: `s0` with (vx, vy) set to the original (vx, vy) plus v * betaN. */
  function Probe(s0: State, betaN: Vec2, v: real): (s: State)
    ensures s[3] == s0[3] + v * betaN.x && s[4] == s0[4] + v * betaN.y
    ensures forall i :: 0 <= i < 6 && i != 3 && i != 4 ==> s[i] == s0[i]
  {
    AddVelocity(s0, Scale(v, betaN))
  }

  /** The classification of the probe at magnitude v. */
  function ClassifyAt(classify: State -> int, s0: State, betaN: Vec2, v: real): int
  {
    classify(Probe(s0, betaN, v))
  }

  /** The first step: dv0, turned the other way when the uncorrected state escapes (p == 1). */
  function InitialStep(p: int, dv0: real): (dv: real)
    ensures Abs(dv) == Abs(dv0)
    ensures dv == dv0 <==> p != 1 || dv0 == 0.0
  {
    if p == 1 then -dv0 else dv0
  }

  /** The probe at magnitude 0 is the uncorrected state. */
  lemma ProbeAtZero(s0: State, betaN: Vec2)
    ensures Probe(s0, betaN, 0.0) == s0
  {
    assert Scale(0.0, betaN) == Vec2(0.0, 0.0);
    AddZeroVelocity(s0);
  }

  /**
   * What holds of the search state (v, dv) before every probe, with p the baseline
   * classification, dvInit the first step, and `halved` whether dv has been halved yet.
   */
  ghost predicate SearchInv(classify: State -> int, s0: State, betaN: Vec2, p: int,
                            dv0: real, dvInit: real, v: real, dv: real, halved: bool)
  {
    && (dvInit == dv0 || dvInit == -dv0)
    && (dv > 0.0 <==> dvInit > 0.0) && (dv < 0.0 <==> dvInit < 0.0)
    && Abs(dv) <= Abs(dv0)
    && ClassifyAt(classify, s0, betaN, v - dv) == p
    && (!halved ==> dv == dvInit)
    && (halved ==> ClassifyAt(classify, s0, betaN, v) != p || ClassifyAt(classify, s0, betaN, v + dv) != p)
  }

  /** A probe that classifies like the baseline advances v by dv and keeps the invariant. */
  lemma AdvanceKeeps(classify: State -> int, s0: State, betaN: Vec2, p: int,
                     dv0: real, dvInit: real, v: real, dv: real, halved: bool)
    requires SearchInv(classify, s0, betaN, p, dv0, dvInit, v, dv, halved)
    requires ClassifyAt(classify, s0, betaN, v) == p
    ensures SearchInv(classify, s0, betaN, p, dv0, dvInit, v + dv, dv, halved)
  {
    assert (v + dv) - dv == v;
  }

  /** A probe that does not classify like the baseline undoes the step, halves dv, and keeps the invariant. */
  lemma HalveKeeps(classify: State -> int, s0: State, betaN: Vec2, p: int,
                   dv0: real, dvInit: real, v: real, dv: real, halved: bool)
    requires SearchInv(classify, s0, betaN, p, dv0, dvInit, v, dv, halved)
    requires ClassifyAt(classify, s0, betaN, v) != p
    ensures SearchInv(classify, s0, betaN, p, dv0, dvInit, (v - dv) + dv * 0.5, dv * 0.5, true)
  {
    var v' := (v - dv) + dv * 0.5;
    var dv' := dv * 0.5;
    assert v' - dv' == v - dv;
    assert v' + dv' == v;
    assert Abs(dv') <= Abs(dv);
  }

  /** One probe, in either branch, keeps the invariant. */
  lemma StepKeeps(classify: State -> int, s0: State, betaN: Vec2, p: int, dv0: real, dvInit: real,
                  v: real, dv: real, halved: bool, v': real, dv': real, halved': bool)
    requires SearchInv(classify, s0, betaN, p, dv0, dvInit, v, dv, halved)
    requires ClassifyAt(classify, s0, betaN, v) != p ==> v' == (v - dv) + dv * 0.5 && dv' == dv * 0.5 && halved'
    requires ClassifyAt(classify, s0, betaN, v) == p ==> v' == v + dv && dv' == dv && halved' == halved
    ensures SearchInv(classify, s0, betaN, p, dv0, dvInit, v', dv', halved')
  {
    if ClassifyAt(classify, s0, betaN, v) != p {
      HalveKeeps(classify, s0, betaN, p, dv0, dvInit, v, dv, halved);
    } else {
      AdvanceKeeps(classify, s0, betaN, p, dv0, dvInit, v, dv, halved);
    }
  }

  /** After components 3 and 4 are written, the array holds the probe at v. */
  lemma ProbeInPlace(s1: array<real>, s0: State, betaN: Vec2, v: real)
    requires s1.Length == 6
    requires forall j :: 0 <= j < 6 && j != 3 && j != 4 ==> s1[j] == s0[j]
    requires s1[3] == s0[3] + v * betaN.x && s1[4] == s0[4] + v * betaN.y
    ensures s1[..] == Probe(s0, betaN, v)
  {
    var probe := Probe(s0, betaN, v);
    assert forall j :: 0 <= j < 6 ==> s1[j] == probe[j];
  }

  /**
   * One pass of the loop body: a probe classified unlike the baseline undoes the last step
   * and halves dv (v becomes v - dv + dv/2); otherwise v advances by dv.
   */
  function Refine(classify: State -> int, s0: State, betaN: Vec2, p: int, v: real, dv: real): (real, real)
  {
    if ClassifyAt(classify, s0, betaN, v) != p then ((v - dv) + dv * 0.5, dv * 0.5) else (v + dv, dv)
  }

  /**
   * The loop: from (v, dv), apply `Refine` while |dv| > dvtol, at most `fuel` times,
   * and give the final (v, dv).
   */
  function Search(classify: State -> int, s0: State, betaN: Vec2, p: int,
                  v: real, dv: real, dvtol: real, fuel: nat): (real, real)
    decreases fuel
  {
    if Abs(dv) <= dvtol || fuel == 0 then (v, dv)
    else
      var next := Refine(classify, s0, betaN, p, v, dv);
      Search(classify, s0, betaN, p, next.0, next.1, dvtol, fuel - 1)
  }

  /** One pass of the loop, when its condition holds, leaves the rest of the search to do with one probe less. */
  lemma SearchStep(classify: State -> int, s0: State, betaN: Vec2, p: int, v: real, dv: real,
                   v': real, dv': real, dvtol: real, fuel: nat)
    requires Abs(dv) > dvtol && fuel > 0
    requires ClassifyAt(classify, s0, betaN, v) != p ==> v' == (v - dv) + dv * 0.5 && dv' == dv * 0.5
    requires ClassifyAt(classify, s0, betaN, v) == p ==> v' == v + dv && dv' == dv
    ensures Search(classify, s0, betaN, p, v, dv, dvtol, fuel) == Search(classify, s0, betaN, p, v', dv', dvtol, fuel - 1)
  {
  }

  /** `Refine` keeps the search invariant, `halved` becoming true when it halves. */
  lemma RefineKeeps(classify: State -> int, s0: State, betaN: Vec2, p: int,
                    dv0: real, dvInit: real, v: real, dv: real, halved: bool)
    requires SearchInv(classify, s0, betaN, p, dv0, dvInit, v, dv, halved)
    ensures var next := Refine(classify, s0, betaN, p, v, dv);
            SearchInv(classify, s0, betaN, p, dv0, dvInit, next.0, next.1,
                      halved || ClassifyAt(classify, s0, betaN, v) != p)
  {
    var next := Refine(classify, s0, betaN, p, v, dv);
    StepKeeps(classify, s0, betaN, p, dv0, dvInit, v, dv, halved, next.0, next.1,
              halved || ClassifyAt(classify, s0, betaN, v) != p);
  }

  /**
   * Whatever the number of passes, the search ends with dv of the sign of the first step and no
   * larger than dv0, with v - dv classified like the baseline, and, once dv has been halved,
   * with v or v + dv classified otherwise.
   */
  lemma {:induction false} SearchResult(classify: State -> int, s0: State, betaN: Vec2, p: int,
                                        dv0: real, dvInit: real, v: real, dv: real, halved: bool,
                                        dvtol: real, fuel: nat)
    requires SearchInv(classify, s0, betaN, p, dv0, dvInit, v, dv, halved)
    ensures var r := Search(classify, s0, betaN, p, v, dv, dvtol, fuel);
      && (r.1 > 0.0 <==> dvInit > 0.0) && (r.1 < 0.0 <==> dvInit < 0.0)
      && Abs(r.1) <= Abs(dv0)
      && ClassifyAt(classify, s0, betaN, r.0 - r.1) == p
      && (Abs(r.1) < Abs(dvInit) ==>
            ClassifyAt(classify, s0, betaN, r.0) != p || ClassifyAt(classify, s0, betaN, r.0 + r.1) != p)
    decreases fuel
  {
    if !(Abs(dv) <= dvtol || fuel == 0) {
      var next := Refine(classify, s0, betaN, p, v, dv);
      RefineKeeps(classify, s0, betaN, p, dv0, dvInit, v, dv, halved);
      SearchResult(classify, s0, betaN, p, dv0, dvInit, next.0, next.1,
                   halved || ClassifyAt(classify, s0, betaN, v) != p, dvtol, fuel - 1);
    }
  }

  /** A search that reached the tolerance gives the same result with any more fuel. */
  lemma {:induction false} SearchMoreFuel(classify: State -> int, s0: State, betaN: Vec2, p: int,
                                          v: real, dv: real, dvtol: real, fuel: nat, more: nat)
    requires fuel <= more
    requires Abs(Search(classify, s0, betaN, p, v, dv, dvtol, fuel).1) <= dvtol
    ensures Search(classify, s0, betaN, p, v, dv, dvtol, more) == Search(classify, s0, betaN, p, v, dv, dvtol, fuel)
    decreases fuel
  {
    if Abs(dv) > dvtol {
      assert fuel > 0;
      var next := Refine(classify, s0, betaN, p, v, dv);
      SearchMoreFuel(classify, s0, betaN, p, next.0, next.1, dvtol, fuel - 1, more - 1);
    }
  }

  /** A search that ends above the tolerance used all its fuel: no shorter run reached the tolerance either. */
  lemma {:induction false} SearchSpentFuel(classify: State -> int, s0: State, betaN: Vec2, p: int,
                                           v: real, dv: real, dvtol: real, fuel: nat, k: nat)
    requires k <= fuel
    requires Abs(Search(classify, s0, betaN, p, v, dv, dvtol, fuel).1) > dvtol
    ensures Abs(Search(classify, s0, betaN, p, v, dv, dvtol, k).1) > dvtol
    decreases k
  {
    if k > 0 {
      var next := Refine(classify, s0, betaN, p, v, dv);
      SearchSpentFuel(classify, s0, betaN, p, next.0, next.1, dvtol, fuel - 1, k - 1);
    }
  }

  /**
   * The search. It works on a copy `s1` of `s0` whose (vx, vy) it overwrites for every probe.
   * `fuel` bounds the number of probes, since the search itself need not end; with the fuel
   * spent the result is None. Besides the correction, the final (v, dv) is returned.
   */
  method FindVPlanes(classify: State -> int, s0: State, betaN: Vec2, dv0: real, dvtol: real, fuel: nat)
    returns (dV: Option<Vec2>, v: real, dv: real)
    ensures var p := classify(s0);
            var dvInit := InitialStep(p, dv0);
      // the baseline is classified once, on s0; the loop starts from v = dv = the first step
      && (v, dv) == Search(classify, s0, betaN, p, dvInit, dvInit, dvtol, fuel)
      // a result exactly when the step has shrunk to the tolerance: v * betaN
      && (dV.Some? <==> Abs(dv) <= dvtol)
      && (dV.Some? ==> dV.value == Scale(v, betaN))
  {
    var s1 := new real[6](j => if j < 6 then s0[j] else 0.0);
    assert s1[..] == s0;
    var vstart := Vec2(s1[3], s1[4]);
    dv := dv0;
    var p := classify(s1[..]);
    if p == 1 {
      dv := -dv;
    }
    v := dv;
    ghost var dvInit := dv;
    var probes := 0;
    while Abs(dv) > dvtol && probes < fuel
      invariant probes <= fuel
      invariant forall j :: 0 <= j < 6 && j != 3 && j != 4 ==> s1[j] == s0[j]
      invariant Search(classify, s0, betaN, p, v, dv, dvtol, fuel - probes)
                == Search(classify, s0, betaN, p, dvInit, dvInit, dvtol, fuel)
      decreases fuel - probes
    {
      s1[3] := vstart.x + v * betaN.x;
      s1[4] := vstart.y + v * betaN.y;
      ProbeInPlace(s1, s0, betaN, v);
      var p1 := classify(s1[..]);
      assert p1 == ClassifyAt(classify, s0, betaN, v);
      ghost var (vWas, dvWas) := (v, dv);
      if p1 != p {
        v := v - dv;
        dv := dv * 0.5;
      }
      v := v + dv;
      SearchStep(classify, s0, betaN, p, vWas, dvWas, v, dv, dvtol, fuel - probes);
      probes := probes + 1;
    }
    if Abs(dv) <= dvtol {
      dV := Some(Scale(v, betaN));
    } else {
      dV := None;
    }
  }

  /**
   * What the search promises about its final (v, dv): dv keeps the sign of the first step and
   * never exceeds dv0; v - dv is classified like the baseline; once dv has been halved, v or
   * v + dv is classified otherwise; with dv0 already within the tolerance no probe is made.
   */
  lemma FindVPlanesResult(classify: State -> int, s0: State, betaN: Vec2, dv0: real, dvtol: real, fuel: nat)
    ensures var p := classify(s0);
            var dvInit := InitialStep(p, dv0);
            var r := Search(classify, s0, betaN, p, dvInit, dvInit, dvtol, fuel);
      && (r.1 > 0.0 <==> dvInit > 0.0) && (r.1 < 0.0 <==> dvInit < 0.0)
      && Abs(r.1) <= Abs(dv0)
      && ClassifyAt(classify, s0, betaN, r.0 - r.1) == p
      && (Abs(r.1) < Abs(dvInit) ==>
            ClassifyAt(classify, s0, betaN, r.0) != p || ClassifyAt(classify, s0, betaN, r.0 + r.1) != p)
      && (Abs(dv0) <= dvtol ==> r == (dvInit, dvInit))
  {
    var p := classify(s0);
    var dvInit := InitialStep(p, dv0);
    ProbeAtZero(s0, betaN);
    assert dvInit - dvInit == 0.0;
    SearchResult(classify, s0, betaN, p, dv0, dvInit, dvInit, dvInit, false, dvtol, fuel);
  }
}
