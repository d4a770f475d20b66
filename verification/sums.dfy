/**
 Finite sums of reals, the exact counterpart of `np.sum` over a path-shaped
 array (rounding is not modelled).
 */
module Sums {

  /** The sum of all entries, left to right. */
  function Sum(s: seq<real>): real
  {
    if |s| == 0 then 0.0 else s[0] + Sum(s[1..])
  }

  /** The arithmetic mean, defined for non-empty sequences. */
  function Mean(s: seq<real>): (r: real)
    requires |s| > 0
    ensures (forall k :: 0 <= k < |s| ==> s[k] >= 0.0) ==> r >= 0.0
  {
    SumNonNegativeIf(s);
    Sum(s) / (|s| as real)
  }

  /** Helper for Mean: the sign of a sum of non-negative entries. */
  lemma {:induction false} SumNonNegativeIf(s: seq<real>)
    ensures (forall k :: 0 <= k < |s| ==> s[k] >= 0.0) ==> Sum(s) >= 0.0
  {
    if forall k :: 0 <= k < |s| ==> s[k] >= 0.0 {
      SumNonNegative(s);
    }
  }

  /** The sequence of `f` applied to each entry, as a vectorised call does. */
  function MapReal(f: real -> real, s: seq<real>): (r: seq<real>)
    ensures |r| == |s|
    ensures forall k {:trigger r[k]} :: 0 <= k < |s| ==> r[k] == f(s[k])
  {
    seq(|s|, k requires 0 <= k < |s| => f(s[k]))
  }

  /** Overwriting one entry changes the sum by exactly the change of that entry. */
  lemma {:induction false} SumUpdate(s: seq<real>, i: int, x: real)
    requires 0 <= i < |s|
    ensures Sum(s[i := x]) == Sum(s) - s[i] + x
  {
    if i == 0 {
      assert s[i := x][1..] == s[1..];
    } else {
      assert s[i := x][1..] == s[1..][i - 1 := x];
      SumUpdate(s[1..], i - 1, x);
    }
  }

  /** Two sequences that agree except at two distinct positions have sums that
      differ by exactly the differences at those positions. */
  lemma SumDiffTwo(a: seq<real>, b: seq<real>, i: int, j: int)
    requires |a| == |b|
    requires 0 <= i < |a| && 0 <= j < |a| && i != j
    requires forall k :: 0 <= k < |a| && k != i && k != j ==> a[k] == b[k]
    ensures Sum(a) - Sum(b) == (a[i] - b[i]) + (a[j] - b[j])
  {
    var c := b[i := a[i]];
    SumUpdate(b, i, a[i]);
    SumUpdate(c, j, a[j]);
    assert c[j := a[j]] == a;
  }

  /** A sum of non-negative entries is non-negative. */
  lemma {:induction false} SumNonNegative(s: seq<real>)
    requires forall k :: 0 <= k < |s| ==> s[k] >= 0.0
    ensures Sum(s) >= 0.0
  {
    if |s| > 0 {
      SumNonNegative(s[1..]);
    }
  }

  /** A sum of n copies of c is n * c. */
  lemma {:induction false} SumConstant(s: seq<real>, c: real)
    requires forall k :: 0 <= k < |s| ==> s[k] == c
    ensures Sum(s) == (|s| as real) * c
  {
    if |s| > 0 {
      SumConstant(s[1..], c);
    }
  }

  /** The mean of a constant sequence is that constant. */
  lemma MeanConstant(s: seq<real>, c: real)
    requires |s| > 0
    requires forall k :: 0 <= k < |s| ==> s[k] == c
    ensures Mean(s) == c
  {
    SumConstant(s, c);
  }
}
