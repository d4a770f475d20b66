/**
 The run driver. It starts from the all-zero path and performs one sweep per
 step. From the first step at or past the equilibration count, it records an
 energy estimate after every sweep. It stores a copy of the path after the
 sweep of every such step that is a multiple of the snapshot interval. The
 snapshot test sits inside the equilibration test, so no snapshot is taken
 before equilibration. At the end it reports the acceptance ratio.
 */
module Sampling {
  import opened Lattice
  import opened Action
  import opened Metropolis
  import opened Energy
  import opened SweepDriver
  import opened Recording

  /** Paths are stored every this many steps. */
  const SnapshotInterval: nat := 500

  /** The state before the first sweep: all-zero path, nothing drawn or counted. */
  function Start(n: nat): (s: State)
    ensures |s.path| == n && s.pos == 0 && s.accepted == 0 && s.total == 0
    ensures forall k :: 0 <= k < n ==> s.path[k] == 0.0
  {
    State(Constant(n, 0.0), 0, 0, 0)
  }

  /** The state after k sweeps. */
  function AfterSteps(e: Engine, k: nat): (s: State)
    requires Valid(e.p)
    ensures |s.path| == e.p.n
    ensures s.accepted <= s.total
    ensures s.total <= s.pos <= 2 * s.total
    ensures s.total == Times(k, e.p.n)
    ensures s.accepted == 0 ==> s.path == Start(e.p.n).path
  {
    if k == 0 then Start(e.p.n)
    else
      var prev := AfterSteps(e, k - 1);
      SweepCountsMoves(e, prev);
      Sweep(e, prev)
  }

  /** After k sweeps exactly k * N updates have been attempted. */
  lemma {:induction false} AfterStepsTotal(e: Engine, k: nat)
    requires Valid(e.p)
    ensures AfterSteps(e, k).total == k * e.p.n
  {
    RepeatedAddition(k, e.p.n);
  }

  /** k * n as k repeated additions of n. */
  function Times(k: nat, n: nat): nat
  {
    if k == 0 then 0 else Times(k - 1, n) + n
  }

  /** Helper for AfterStepsTotal: repeated addition is multiplication. */
  lemma {:induction false} RepeatedAddition(k: nat, n: nat)
    ensures Times(k, n) == k * n
  {
    if k > 0 {
      RepeatedAddition(k - 1, n);
    }
  }

  /** The energy estimate on the path left by the sweep of step s. */
  function EnergyAfter(e: Engine, s: nat): real
    requires Valid(e.p)
  {
    EnergyEstimate(e.p, e.V, AfterSteps(e, s + 1).path)
  }

  /** `energy_estimate` at the end of each step, as a series value. */
  function EnergyAt(e: Engine): nat -> real
    requires Valid(e.p)
  {
    (s: nat) => EnergyAfter(e, s)
  }

  /** The path left by the sweep of step s. */
  function PathAfter(e: Engine, s: nat): Path
    requires Valid(e.p)
  {
    AfterSteps(e, s + 1).path
  }

  /** A copy of the path left by the sweep of each step, as a series value. */
  function PathAt(e: Engine): nat -> Path
    requires Valid(e.p)
  {
    (s: nat) => PathAfter(e, s)
  }

  /** The steps that record an energy sample: those at or past equilibration. */
  function SampleTest(equilSteps: nat): nat -> bool
  {
    (s: nat) => s >= equilSteps
  }

  /** Whether a step stores a path copy. The interval test is nested inside the
      equilibration test. */
  predicate TakesSnapshot(equilSteps: nat, step: nat)
  {
    step >= equilSteps && step % SnapshotInterval == 0
  }

  function SnapshotTest(equilSteps: nat): nat -> bool
  {
    (s: nat) => TakesSnapshot(equilSteps, s)
  }

  /** The energy samples recorded in steps 0..k-1. */
  function Samples(e: Engine, equilSteps: nat, k: nat): seq<real>
    requires Valid(e.p)
  {
    Recorded(SampleTest(equilSteps), EnergyAt(e), k)
  }

  /** The paths stored in steps 0..k-1. */
  function Snapshots(e: Engine, equilSteps: nat, k: nat): seq<Path>
    requires Valid(e.p)
  {
    Recorded(SnapshotTest(equilSteps), PathAt(e), k)
  }

  /** There is one energy sample per step from the equilibration count on, and
      sample j is the estimate on the path left by step equilSteps + j. */
  lemma SamplesSchedule(e: Engine, equilSteps: nat, k: nat)
    requires Valid(e.p)
    ensures |Samples(e, equilSteps, k)| == if k <= equilSteps then 0 else k - equilSteps
    ensures forall j :: 0 <= j < |Samples(e, equilSteps, k)| ==>
              Samples(e, equilSteps, k)[j] == EnergyAt(e)(equilSteps + j)
  {
    RecordedFromThreshold(SampleTest(equilSteps), EnergyAt(e), equilSteps, k);
  }

  /** A path is stored exactly for the steps s < k with s >= equilSteps and
      s % 500 == 0, in increasing step order, and stored path j is the path
      left by the j-th such step. */
  lemma SnapshotsSchedule(e: Engine, equilSteps: nat, k: nat)
    requires Valid(e.p)
    ensures var steps := Steps(SnapshotTest(equilSteps), k);
            && (forall s: nat :: s in steps <==> s < k && s >= equilSteps && s % SnapshotInterval == 0)
            && (forall a, b :: 0 <= a < b < |steps| ==> steps[a] < steps[b])
            && |Snapshots(e, equilSteps, k)| == |steps|
            && (forall j :: 0 <= j < |steps| ==> Snapshots(e, equilSteps, k)[j] == PathAfter(e, steps[j]))
  {
    StepsExact(SnapshotTest(equilSteps), k);
    RecordedAtSteps(SnapshotTest(equilSteps), PathAt(e), k);
  }

  /** One more step appends the energy after its sweep when it is at or past
      equilibration, and nothing otherwise. */
  lemma SamplesNext(e: Engine, equilSteps: nat, k: nat)
    requires Valid(e.p)
    ensures Samples(e, equilSteps, k + 1)
            == Samples(e, equilSteps, k)
               + (if k >= equilSteps then [EnergyAfter(e, k)] else [])
  {
  }

  /** One more step appends the path left by its sweep exactly when it takes a
      snapshot. */
  lemma SnapshotsNext(e: Engine, equilSteps: nat, k: nat)
    requires Valid(e.p)
    ensures Snapshots(e, equilSteps, k + 1)
            == Snapshots(e, equilSteps, k)
               + (if TakesSnapshot(equilSteps, k) then [PathAfter(e, k)] else [])
  {
  }

  /** The acceptance ratio, or the division by zero of a run with no updates. */
  datatype Ratio = ZeroDivision | Ratio(value: real)

  /** `accept_count / total_updates`. */
  function AcceptanceRatio(accepted: nat, total: nat): (r: Ratio)
    ensures r.ZeroDivision? <==> total == 0
    ensures r.Ratio? ==> r.value * (total as real) == accepted as real
    ensures accepted <= total && r.Ratio? ==> 0.0 <= r.value <= 1.0
  {
    if total == 0 then ZeroDivision else Ratio((accepted as real) / (total as real))
  }

  /** What a run leaves behind. */
  datatype RunResult = RunResult(path: Path, energySamples: seq<real>, storedPaths: seq<Path>,
                                 acceptCount: nat, totalUpdates: nat, ratio: Ratio)

  /** One step of the run: a sweep of the array in place, then the energy
      sample and the path copy the step records, if any. */
  method RunStep(e: Engine, equilSteps: nat, step: nat, path: array<real>, pos: nat, acceptCount: nat,
                 totalUpdates: nat, energySamples: seq<real>, storedPaths: seq<Path>)
    returns (pos': nat, acceptCount': nat, totalUpdates': nat, energySamples': seq<real>, storedPaths': seq<Path>)
    requires Valid(e.p) && path.Length == e.p.n
    requires State(path[..], pos, acceptCount, totalUpdates) == AfterSteps(e, step)
    requires energySamples == Samples(e, equilSteps, step)
    requires storedPaths == Snapshots(e, equilSteps, step)
    modifies path
    ensures State(path[..], pos', acceptCount', totalUpdates') == AfterSteps(e, step + 1)
    ensures energySamples' == Samples(e, equilSteps, step + 1)
    ensures storedPaths' == Snapshots(e, equilSteps, step + 1)
  {
    pos', acceptCount', totalUpdates' := SweepInPlace(e, path, pos, acceptCount, totalUpdates);
    SamplesNext(e, equilSteps, step);
    SnapshotsNext(e, equilSteps, step);
    energySamples', storedPaths' := energySamples, storedPaths;
    if step >= equilSteps {
      var energy := EnergyEstimate(e.p, e.V, path[..]);
      energySamples' := energySamples' + [energy];
      if step % SnapshotInterval == 0 {
        storedPaths' := storedPaths' + [path[..]];
      }
    }
  }

  /** The whole run on an array mutated in place, as the program does it. */
  method Run(e: Engine, nSteps: nat, equilSteps: nat) returns (r: RunResult)
    requires Valid(e.p)
    ensures r.path == AfterSteps(e, nSteps).path
    ensures r.totalUpdates == nSteps * e.p.n
    ensures r.acceptCount == AfterSteps(e, nSteps).accepted
    ensures r.acceptCount <= r.totalUpdates
    ensures r.acceptCount == 0 ==> r.path == Start(e.p.n).path
    ensures r.energySamples == Samples(e, equilSteps, nSteps)
    ensures |r.energySamples| == if nSteps <= equilSteps then 0 else nSteps - equilSteps
    ensures r.storedPaths == Snapshots(e, equilSteps, nSteps)
    ensures r.ratio == AcceptanceRatio(r.acceptCount, r.totalUpdates)
    ensures nSteps > 0 ==> r.ratio.Ratio? && 0.0 <= r.ratio.value <= 1.0
  {
    var n := e.p.n;
    var path := new real[n](_ => 0.0);
    var energySamples: seq<real> := [];
    var acceptCount: nat := 0;
    var totalUpdates: nat := 0;
    var storedPaths: seq<Path> := [];
    var pos: nat := 0;
    assert path[..] == Start(n).path;
    assert State(path[..], pos, acceptCount, totalUpdates) == AfterSteps(e, 0);
    assert energySamples == Samples(e, equilSteps, 0);
    assert storedPaths == Snapshots(e, equilSteps, 0);
    var step: nat := 0;
    while step < nSteps
      invariant step <= nSteps
      invariant path.Length == n
      invariant State(path[..], pos, acceptCount, totalUpdates) == AfterSteps(e, step)
      invariant energySamples == Samples(e, equilSteps, step)
      invariant storedPaths == Snapshots(e, equilSteps, step)
    {
      pos, acceptCount, totalUpdates, energySamples, storedPaths :=
        RunStep(e, equilSteps, step, path, pos, acceptCount, totalUpdates, energySamples, storedPaths);
      step := step + 1;
    }
    SamplesSchedule(e, equilSteps, nSteps);
    AfterStepsTotal(e, nSteps);
    r := RunResult(path[..], energySamples, storedPaths, acceptCount, totalUpdates,
                   AcceptanceRatio(acceptCount, totalUpdates));
  }
}
