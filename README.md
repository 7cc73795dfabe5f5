# orbits: the control logic around CRTBP propagation

The `orbits` repository computes trajectories of a spacecraft near a libration point in the
circular restricted three-body problem (CRTBP). Most of the numerical work, the integration of the
equations of motion, is done by scipy's `dopri5` integrator. What this project models is the
discrete logic built around that integrator:

- the step callbacks of `stop_funcs.py`. Each one records the current sample (the state followed by the time)
  in a list its caller owns, and then decides whether integration stops (-1) or continues (0);
- `propCrtbp`, which feeds the callback (`stopNull` by default) every accepted step and returns
  the recorded samples;
- `prop2Planes`, which integrates until the trajectory leaves a box bounded by two x-planes and
  a |y| bound, and classifies the exit as 1 when it is beyond x = planes[1] or |y| = planes[2], else as 0;
- `findVPlanes`, the sign-tracked step-halving search for the magnitude of a velocity correction
  along a direction, driven by that classification;
- `propNRevsPlanes`, which chains N corrected revolutions: each later revolution restarts from the
  last accumulated sample without its time, and its samples are appended without the first one.

States are 6-element `seq<real>` (x, y, z, vx, vy, vz) and samples are 7-element `seq<real>`.
Reals are exact. The integrator is an oracle passed as a parameter:
- for `propCrtbp`, the list of steps the integrator reports to its callback, the initial point included;
- for `prop2Planes`, a function from the start state to the states the integrator reports, the initial point included;
- for `propNRevsPlanes`, a fixed-duration propagator from state to samples, plus the velocity solver.

In each oracle, the mass parameter mu, the integrator settings and the time span are fixed.
`findVPlanes` takes its classifier, which is `prop2Planes` with mu, the planes and the
settings fixed, as an abstract deterministic function from states to integers. Its direction
`beta_n = (cos beta, sin beta)` is a given pair of reals.

Modules:
- `Samples` (samples.dfy): states, samples, velocity corrections.
- `StopFuncs` (stop_funcs.dfy): the callbacks. They are methods on a `SampleList` object, whose
  `rows` they extend in place.
- `CrtbpProp` (crtbp_prop.dfy): `propCrtbp`, `_stopPlanes`, the `prop2Planes` classification and
  `propNRevsPlanes`.
- `FindVel` (find_vel.dfy): `findVPlanes`. It works on a 6-element array copy of the state,
  whose components 3 and 4 it overwrites for every probe.

The loops are methods, each proved equal to a specification function or against the loop's
invariant:
- `PropCrtbp` equals `Recorded`.
- `PropNRevsPlanes` equals `Revs`.
- `FindVPlanes` equals `Search`, the loop written as a function with a bounded number of passes.

Lemmas state what those functions mean.

## Model

| member | source | states |
|---|---|---|
| Samples.Row | stop_funcs.py:36 | the recorded sample is the six state components followed by t |
| Samples.StateOfRow | crtbp_prop.py:191 | dropping the time column of a sample gives back the state it was made from |
| Samples.Abs | crtbp_prop.py:105 | `math.fabs`: non-negative and equal to x or -x |
| Samples.AddVelocity | crtbp_prop.py:184-185 | adding a correction changes vx and vy by its components and leaves the other four components as they were |
| Samples.StateOf | crtbp_prop.py:191 | `arr[-1, :-1]` on one row: the first six components of a sample |
| Samples.Scale | find_vel.py:41 | `v * beta_n` (no contract of its own; `Probe` states what it does to a state) |
| Samples.AddZeroVelocity | find_vel.py:38-41 | a zero correction leaves the state unchanged |
| StopFuncs.SampleList.constructor | crtbp_prop.py:57 | `lst = []`: a new list holds no samples |
| StopFuncs.SampleList.Append | stop_funcs.py:36 | `append` puts the sample at the end and keeps the earlier entries |
| StopFuncs.Y0mCode | stop_funcs.py:70-72 | the code is -1 or 0, and it is -1 exactly when y < 0 (y == 0 continues) |
| StopFuncs.PlanesCode | stop_funcs.py:110-112 | the code is -1 or 0, and it is -1 exactly when x < planes[0] or x > planes[1] (points on a plane continue; y is ignored) |
| StopFuncs.ThreePlanesCode | stop_funcs.py:154-156 | the code is -1 or 0, and it is -1 exactly when x < planes[0], x > planes[1] or \|y\| > planes[2] |
| StopFuncs.ThreePlanesCoversPlanes | stop_funcs.py:154 | whenever the two-plane rule stops, the three-plane rule with the same x-planes stops too |
| StopFuncs.StopNull | stop_funcs.py:36-37 | appends exactly the sample (s, t), keeps the earlier entries and returns 0 |
| StopFuncs.StopY0m | stop_funcs.py:69-72 | appends the sample before deciding, so a stopping state is recorded; returns the y < 0 decision |
| StopFuncs.StopPlanes | stop_funcs.py:109-112 | appends the sample before deciding; returns the two-plane decision |
| StopFuncs.Stop3Planes | stop_funcs.py:153-156 | appends the sample before deciding; returns the three-plane decision |
| StopFuncs.Decision | crtbp_prop.py:59-62 | whichever callback is in effect, the code is -1 or 0; `stopNull` always continues |
| StopFuncs.Call | crtbp_prop.py:60 | calling a callback on one step records exactly that step's sample and returns that callback's decision |
| CrtbpProp.Chosen | crtbp_prop.py:59-62 | the callback is the caller's `stopf` when one is given and `stopNull` otherwise |
| CrtbpProp.Recorded | crtbp_prop.py:57-64 | the recorded list holds no more samples than there are steps, and at least one when there is a step |
| CrtbpProp.RecordedInOrder | crtbp_prop.py:57-64 | the i-th recorded sample is the sample of step i |
| CrtbpProp.RecordedStopsAtFirstStop | crtbp_prop.py:59-63 | every recorded step before the last continued; when recording ended early, the last recorded step is the first one that stopped |
| CrtbpProp.NeverStopRecordsAll | crtbp_prop.py:59-63 | a callback that continues on every step records every step |
| CrtbpProp.NullRecordsAll | crtbp_prop.py:61-64 | with the default `stopNull`, one sample per step is recorded, in step order |
| CrtbpProp.RecordedFrom | crtbp_prop.py:60-63 | recording one more step after the samples so far stays on course for the full recorded list |
| CrtbpProp.PropCrtbp | crtbp_prop.py:57-64 | the returned list is what the caller's `stopf` (or `stopNull` without one) records over the accepted steps, ending at the first stop |
| CrtbpProp.BoxStop | crtbp_prop.py:104-107 | `_stopPlanes` returns the three-plane decision and records nothing |
| CrtbpProp.FinalState | crtbp_prop.py:112-113 | what `integrate` returns with `_stopPlanes` as callback is the start state or one of the reported states |
| CrtbpProp.FinalStateAtFirstExit | crtbp_prop.py:112-113 | when some step leaves the box, integration ends at the first such step |
| CrtbpProp.FinalStateWithoutExit | crtbp_prop.py:112-113 | when no step leaves the box, integration ends at the last step, or at the start when there is no step |
| CrtbpProp.Prop2Planes | crtbp_prop.py:114-116 | the classification is 0 or 1 |
| CrtbpProp.ClassifyFirstExit | crtbp_prop.py:112-116 | at the first exit, the result is 1 exactly when x > planes[1] or \|y\| > planes[2], and 0 exactly when the exit is through x < planes[0] alone |
| CrtbpProp.ClassifyNoExit | crtbp_prop.py:113-116 | a trajectory that stays in the box over all its steps is classified 0 |
| CrtbpProp.StartOf | crtbp_prop.py:183-191 | revolution 0 starts from s0, a later one from the last accumulated row without its time (no contract of its own; `CorrectionAt` states it) |
| CrtbpProp.CorrectionOf | crtbp_prop.py:183-192 | the solver's answer at 90 degrees for revolution 0 and at `beta` afterwards, for the revolution's start state (no contract of its own; `CorrectionAt` states it) |
| CrtbpProp.Revolution | crtbp_prop.py:184-194 | the samples of one revolution, propagated from its corrected start; never empty, since the propagator reports its initial point |
| CrtbpProp.Revs | crtbp_prop.py:183-196 | the chain after revolutions 0..k is non-empty and holds one correction per revolution |
| CrtbpProp.RevsLength | crtbp_prop.py:188-195 | the trajectory is as long as revolution 0 plus \|rev_i\| - 1 for each later revolution |
| CrtbpProp.RevsPrefix | crtbp_prop.py:195-196 | later revolutions only append to the trajectory and to the list of corrections |
| CrtbpProp.CorrectionAt | crtbp_prop.py:183-192 | correction 0 is the solver's answer for s0 at 90 degrees; correction i > 0 is its answer for the previous chain's last sample without its time, at the caller's beta |
| CrtbpProp.RevolutionPlacement | crtbp_prop.py:195 | revolution i > 0 appears in the trajectory without its first sample, right after the samples of the earlier revolutions |
| CrtbpProp.PropNRevsPlanes | crtbp_prop.py:183-200 | the loop builds exactly the chain of N revolutions (one for N <= 1); the corrections are returned only when `retDV` holds |
| FindVel.ProbeAtZero | find_vel.py:34-38 | the probe at magnitude 0 is the uncorrected state, so the start point v - dv = 0 has the baseline classification |
| FindVel.AdvanceKeeps | find_vel.py:44-48 | a probe classified like the baseline advances v by dv, keeps dv, and keeps the search invariant |
| FindVel.HalveKeeps | find_vel.py:44-48 | a probe classified otherwise makes v become v - dv + dv/2 and halves dv, and this keeps the search invariant |
| FindVel.StepKeeps | find_vel.py:41-48 | one probe, in either branch, keeps the search invariant: dv keeps its sign, \|dv\| <= \|dv0\|, and v - dv has the baseline classification |
| FindVel.ProbeInPlace | find_vel.py:41 | writing vstart + v * beta_n into components 3 and 4 of the copy yields the probe at v, the other components being those of s0 |
| FindVel.Refine | find_vel.py:44-48 | one pass of the loop body (no contract of its own; `SearchStep` and `RefineKeeps` state it) |
| FindVel.Search | find_vel.py:40-48 | the loop with at most `fuel` passes (no contract of its own; `SearchResult`, `SearchMoreFuel` and `SearchSpentFuel` state it) |
| FindVel.SearchStep | find_vel.py:40-48 | a pass made while \|dv\| > dvtol, halving on a changed classification and advancing otherwise, leaves the rest of the search with one pass less |
| FindVel.RefineKeeps | find_vel.py:44-48 | one pass keeps the search invariant, recording a halving when the probe's classification changed |
| FindVel.SearchResult | find_vel.py:40-48 | after any number of passes dv has the first step's sign and \|dv\| <= \|dv0\|, v - dv has the baseline classification, and once dv has been halved v or v + dv does not |
| FindVel.SearchMoreFuel | find_vel.py:40 | a search that has reached the tolerance gives the same (v, dv) with any larger bound on the passes, so the bound changes nothing once the loop exits |
| FindVel.SearchSpentFuel | find_vel.py:40 | a search that ends above the tolerance made every pass it was allowed: no shorter run reached the tolerance |
| FindVel.FindVPlanes | find_vel.py:24-50 | the baseline is classified once, on s0; the loop starts from v = dv = the first step and its final (v, dv) is exactly `Search` from there; the correction is v * beta_n, given exactly when \|dv\| <= dvtol |
| FindVel.FindVPlanesResult | find_vel.py:34-50 | for the search `FindVPlanes` runs: dv ends with the sign of dv0 (of -dv0 when the baseline is 1) and \|dv\| <= \|dv0\|; v - dv has the baseline classification; once dv has been halved, v or v + dv does not; with \|dv0\| <= dvtol no probe is made |
| FindVel.Probe | find_vel.py:41 | a probe changes vx and vy to vstart + v * beta_n and keeps the other four components of s0 |
| FindVel.InitialStep | find_vel.py:35-38 | the first step has the size of dv0, and it is dv0 itself unless the baseline is 1 (then -dv0) |

## Left out

- The scipy `ode`/`dopri5` integration, its settings (`int_param`, the keyword arguments of `prop2Planes`), and the time bounds `tspan`, 3140.0 and `dT`. These belong to a foreign floating-point library. Each integration is an oracle parameter.
- The `crtbp` vector field. `crtbp_ode` is not part of this model.
- `math.radians`, `cos` and `sin` in `findVPlanes`. These are floating-point trigonometry, so the direction `beta_n` is a parameter.
- Floating-point rounding. All arithmetic is on exact reals, and the default `dvtol` of 1e-16 is a parameter.
- FindVPlanes: the loop has no termination guarantee, since dv halves only when a probe's classification flips. The model bounds the number of probes by a `fuel` parameter and returns None when the fuel runs out (`SearchSpentFuel`), where the source would loop on; a search that ends within the bound gives what any larger bound gives (`SearchMoreFuel`).
- FindVPlanes: `dvtol` is a free parameter. In the source, `findVPlanes` passes all its keyword arguments, `dvtol` included (find_vel.py:28, 34, 42), to `prop2Planes`, which hands them to `set_integrator('dopri5', **kwargs)` (crtbp_prop.py:111); `dopri5` takes no `dvtol` option, so an explicit `dvtol` fails there with a `TypeError` and only the default 1e-16 is usable. The model also covers the other values.
- FindVPlanes: the classifier is an abstract deterministic function of the state rather than a call of `Prop2Planes`. The part of `Prop2Planes` that can be stated is modelled separately.
- PropNRevsPlanes: the solver is an abstract function from a state and an angle to a correction, standing in for `findVPlanes` with `planes`, `dv0` and the keyword arguments fixed. The propagator is assumed to always report its initial point (`ReportsStart`), as the integrator's first callback does.
- PropNRevsPlanes: the numpy `vstack` shape of DV is not modelled. For N = 1 the source returns a flat pair rather than a 1×2 array. The model returns the list of corrections.
- The progress printing in `propNRevsPlanes`.
- PropNRevsPlanes: the default arguments `N=10`, `dT=pi`, `dv0=0.05` and `retDV=False` (crtbp_prop.py:121). Dafny has no default arguments, so `n` and `retDV` are always given, and `dT` and `dv0` are folded into the propagator and the solver.
- The forwarding of keyword arguments. `propCrtbp` passes all of its keyword arguments, `stopf` and `int_param` included, on to the callback. Only `stopPlanes` and `stop3Planes` accept them, so passing `stopNull` or `stopY0m` as `stopf` would fail with a `TypeError`. The model passes the planes explicitly and just dispatches on the callback.
- special_plot.py (matplotlib plotting) and lagrange_pts.py (a wrapper over `scipy.optimize.root`) are not part of this model.
