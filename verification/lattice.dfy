/**
 The periodic imaginary-time lattice: N slices indexed 0..N-1, where the
 neighbour after slice N-1 is slice 0 and the neighbour before slice 0 is
 slice N-1. The source computes both neighbours with Python's `%`, which for a
 positive divisor agrees with Dafny's Euclidean `%` (both return a value in
 [0, N) congruent to the dividend).
 */
module Lattice {

  /** A path: one position per imaginary-time slice. */
  type Path = seq<real>

  /** The right neighbour `(i + 1) % n` of slice `i`. */
  function Next(i: int, n: nat): (j: nat)
    requires n >= 2 && 0 <= i < n
    ensures j < n
    ensures i == n - 1 ==> j == 0
    ensures i < n - 1 ==> j == i + 1
  {
    (i + 1) % n
  }

  /** The left neighbour `(i - 1) % n` of slice `i`. */
  function Prev(i: int, n: nat): (j: nat)
    requires n >= 2 && 0 <= i < n
    ensures j < n
    ensures i == 0 ==> j == n - 1
    ensures 0 < i ==> j == i - 1
  {
    (i - 1) % n
  }

  /** Python's floor remainder for a positive divisor, written out from its definition:
      the unique r in [0, b) with a - r divisible by b. */
  ghost predicate IsFloorMod(a: int, b: int, r: int)
  {
    b > 0 && 0 <= r < b && exists q :: a == q * b + r
  }

  /** Both neighbour computations produce exactly Python's remainder. */
  lemma NeighboursAreFloorMod(i: int, n: nat)
    requires n >= 2 && 0 <= i < n
    ensures IsFloorMod(i + 1, n, Next(i, n))
    ensures IsFloorMod(i - 1, n, Prev(i, n))
  {
    if i == n - 1 {
      assert i + 1 == 1 * n + Next(i, n);
    } else {
      assert i + 1 == 0 * n + Next(i, n);
    }
    if i == 0 {
      assert i - 1 == (-1) * n + Prev(i, n);
    } else {
      assert i - 1 == 0 * n + Prev(i, n);
    }
  }

  /** Stepping right then left (or left then right) returns to the same slice,
      and the two neighbours of a slice are distinct from it. */
  lemma NeighboursInverse(i: int, n: nat)
    requires n >= 2 && 0 <= i < n
    ensures Prev(Next(i, n), n) == i
    ensures Next(Prev(i, n), n) == i
    ensures Next(i, n) != i && Prev(i, n) != i
  {
  }

  /** The periodic ring has no gaps: every slice is somebody's right neighbour. */
  lemma NextIsOnto(j: int, n: nat)
    requires n >= 2 && 0 <= j < n
    ensures exists i :: 0 <= i < n && Next(i, n) == j
  {
    var i := Prev(j, n);
    assert Next(i, n) == j;
  }
}
