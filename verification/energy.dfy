/**
 The thermodynamic energy estimator: a kinetic term from the squared
 difference between each slice and its left neighbour (the path against its
 right roll by one), plus the mean potential over the slices.
 */
module Energy {
  import opened Lattice
  import opened Sums
  import opened Action

  /** `np.roll(s, 1)`: every entry moves one place right, the last wraps to the front. */
  function RollRight(s: seq<real>): (r: seq<real>)
    ensures |r| == |s|
    ensures |s| >= 2 ==> forall k {:trigger r[k]} :: 0 <= k < |s| ==> r[k] == s[Prev(k, |s|)]
  {
    if |s| == 0 then [] else [s[|s| - 1]] + s[..|s| - 1]
  }

  /** The squared left differences: entry k pairs slice k with its left
      neighbour, which is the program's vectorised `(path - np.roll(path, 1))**2`. */
  function LeftDiffs(path: Path): (d: seq<real>)
    requires |path| >= 2
    ensures |d| == |path|
    ensures forall k {:trigger d[k]} :: 0 <= k < |path| ==> d[k] == Sq(path[k] - RollRight(path)[k])
  {
    seq(|path|, k requires 0 <= k < |path| => Sq(path[k] - path[Prev(k, |path|)]))
  }

  /** The squared right differences, the ones the action's links use. */
  function RightDiffs(path: Path): (d: seq<real>)
    requires |path| >= 2
    ensures |d| == |path|
    ensures forall k {:trigger d[k]} :: 0 <= k < |path| ==> d[k] == Sq(path[Next(k, |path|)] - path[k])
  {
    seq(|path|, k requires 0 <= k < |path| => Sq(path[Next(k, |path|)] - path[k]))
  }

  /** The kinetic estimate `sum((x - roll(x, 1))**2) * (m / (2 * dtau**2)) / N`. */
  function KineticEstimate(p: Params, path: Path): (k: real)
    requires Valid(p) && |path| == p.n
    ensures k >= 0.0
  {
    var d := LeftDiffs(path);
    SumNonNegative(d);
    var c := p.m / (2.0 * Sq(Dtau(p)));
    ScaledSign(Sum(d), c, p.n as real);
    Sum(d) * c / (p.n as real)
  }

  /** Sign facts for a quantity scaled by a positive factor and divisor. */
  lemma ScaledSign(a: real, c: real, n: real)
    requires c > 0.0 && n > 0.0
    ensures a >= 0.0 ==> a * c / n >= 0.0
    ensures a * c / n == 0.0 ==> a == 0.0
  {
  }

  /** The potential estimate `mean(V(path))`. */
  function PotentialEstimate(V: real -> real, path: Path): (u: real)
    requires |path| > 0
    ensures NonNegative(V) ==> u >= 0.0
  {
    assert NonNegative(V) ==> forall k :: 0 <= k < |path| ==> MapReal(V, path)[k] >= 0.0 by {
      if NonNegative(V) {
        MapNonNegative(V, path);
      }
    }
    Mean(MapReal(V, path))
  }

  /** A non-negative potential gives non-negative values at every slice. */
  lemma MapNonNegative(V: real -> real, path: Path)
    requires NonNegative(V)
    ensures forall k :: 0 <= k < |path| ==> MapReal(V, path)[k] >= 0.0
  {
    forall k | 0 <= k < |path|
      ensures MapReal(V, path)[k] >= 0.0
    {
      var x := path[k];
      assert V(x) >= 0.0;
      assert MapReal(V, path)[k] == V(x);
    }
  }

  /** The energy estimate: kinetic estimate plus mean potential. */
  function EnergyEstimate(p: Params, V: real -> real, path: Path): (e: real)
    requires Valid(p) && |path| == p.n
    ensures e >= PotentialEstimate(V, path)
    ensures NonNegative(V) ==> e >= 0.0
  {
    KineticEstimate(p, path) + PotentialEstimate(V, path)
  }

  /** A path with every slice at c. */
  function Constant(n: nat, c: real): (path: Path)
    ensures |path| == n
    ensures forall k :: 0 <= k < n ==> path[k] == c
  {
    seq(n, _ => c)
  }

  /** On a constant path the kinetic estimate vanishes and the energy is the
      potential at that constant. */
  lemma ConstantPathEnergy(p: Params, V: real -> real, c: real)
    requires Valid(p)
    ensures KineticEstimate(p, Constant(p.n, c)) == 0.0
    ensures EnergyEstimate(p, V, Constant(p.n, c)) == V(c)
  {
    var path := Constant(p.n, c);
    var d := LeftDiffs(path);
    forall k | 0 <= k < p.n
      ensures d[k] == 0.0
    {
      assert path[k] - path[Prev(k, p.n)] == 0.0;
    }
    SumConstant(d, 0.0);
    ScaledSign(Sum(d), p.m / (2.0 * Sq(Dtau(p))), p.n as real);
    MeanConstant(MapReal(V, path), V(c));
  }

  /** The all-zero starting path has energy estimate 0 for the harmonic potential. */
  lemma ZeroPathHarmonicEnergy(p: Params, omega: real)
    requires Valid(p)
    ensures EnergyEstimate(p, HarmonicV(p.m, omega), Constant(p.n, 0.0)) == 0.0
  {
    ConstantPathEnergy(p, HarmonicV(p.m, omega), 0.0);
  }

  /** A sum of non-negative entries vanishes only when every entry does. */
  lemma {:induction false} SumZeroOnlyIfAllZero(s: seq<real>, k: int)
    requires forall j :: 0 <= j < |s| ==> s[j] >= 0.0
    requires Sum(s) == 0.0 && 0 <= k < |s|
    ensures s[k] == 0.0
  {
    SumNonNegative(s[1..]);
    if k > 0 {
      SumZeroOnlyIfAllZero(s[1..], k - 1);
    }
  }

  /** The kinetic estimate is zero exactly when the path is constant. */
  lemma KineticZeroIffConstant(p: Params, path: Path)
    requires Valid(p) && |path| == p.n
    ensures KineticEstimate(p, path) == 0.0 <==> path == Constant(p.n, path[0])
  {
    if KineticEstimate(p, path) == 0.0 {
      KineticZeroOnlyIfConstant(p, path);
    } else if path == Constant(p.n, path[0]) {
      ConstantPathEnergy(p, x => x, path[0]);
    }
  }

  /** Helper for KineticZeroIffConstant: a vanishing kinetic estimate forces
      every slice to equal its left neighbour, hence slice 0. */
  lemma KineticZeroOnlyIfConstant(p: Params, path: Path)
    requires Valid(p) && |path| == p.n
    requires KineticEstimate(p, path) == 0.0
    ensures path == Constant(p.n, path[0])
  {
    var n := p.n;
    var d := LeftDiffs(path);
    ScaledSign(Sum(d), p.m / (2.0 * Sq(Dtau(p))), p.n as real);
    assert Sum(d) == 0.0;
    SumNonNegative(d);
    forall k | 0 < k < n
      ensures path[k] == path[k - 1]
    {
      SumZeroOnlyIfAllZero(d, k);
    }
    forall k | 0 <= k < n
      ensures path[k] == path[0]
    {
      EqualToFirst(path, k);
    }
  }

  /** Helper for KineticZeroIffConstant: vanishing left differences chain every
      slice back to slice 0. */
  lemma {:induction false} EqualToFirst(path: Path, k: int)
    requires forall j :: 0 < j < |path| ==> path[j] == path[j - 1]
    requires 0 <= k < |path|
    ensures path[k] == path[0]
    decreases k
  {
    if k > 0 {
      EqualToFirst(path, k - 1);
    }
  }

  /** The sum of a sequence is invariant under rolling it. */
  lemma SumRollRight(s: seq<real>)
    ensures Sum(RollRight(s)) == Sum(s)
  {
    if |s| > 0 {
      var n := |s|;
      SumAppend([s[n - 1]], s[..n - 1]);
      SumAppend(s[..n - 1], [s[n - 1]]);
      assert s[..n - 1] + [s[n - 1]] == s;
    }
  }

  /** The sum of a concatenation is the sum of the parts. */
  lemma {:induction false} SumAppend(a: seq<real>, b: seq<real>)
    ensures Sum(a + b) == Sum(a) + Sum(b)
  {
    if |a| > 0 {
      assert (a + b)[1..] == a[1..] + b;
      SumAppend(a[1..], b);
    } else {
      assert a + b == b;
    }
  }

  /** Over a full period the left differences the estimator uses and the right
      differences the action's links use add up to the same total: the
      estimator's asymmetric form loses nothing against the action. */
  lemma LeftAndRightDifferencesAgree(path: Path)
    requires |path| >= 2
    ensures Sum(LeftDiffs(path)) == Sum(RightDiffs(path))
  {
    var right := RightDiffs(path);
    var left := LeftDiffs(path);
    forall k | 0 <= k < |path|
      ensures left[k] == RollRight(right)[k]
    {
      LeftDiffIsRolledRightDiff(path, k);
    }
    assert left == RollRight(right);
    SumRollRight(right);
  }

  /** Helper for LeftAndRightDifferencesAgree: the left difference at slice k
      is the right difference at its left neighbour. */
  lemma LeftDiffIsRolledRightDiff(path: Path, k: int)
    requires |path| >= 2 && 0 <= k < |path|
    ensures LeftDiffs(path)[k] == RollRight(RightDiffs(path))[k]
  {
    RightDiffAtPrev(path, k);
  }

  /** Helper for LeftDiffIsRolledRightDiff: slice k is the right neighbour of
      its left neighbour. */
  lemma RightDiffAtPrev(path: Path, k: int)
    requires |path| >= 2 && 0 <= k < |path|
    ensures RightDiffs(path)[Prev(k, |path|)] == LeftDiffs(path)[k]
  {
    NeighboursInverse(k, |path|);
  }
}
