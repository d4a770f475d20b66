/**
 The discretised Euclidean action. The run's global constants become an
 explicit `Params` value, and the potential is a parameter `V`. The harmonic
 potential is the instance the program uses.
 */
module Action {
  import opened Lattice
  import opened Sums

  /** Mass, reduced Planck constant, inverse temperature and slice count. */
  datatype Params = Params(m: real, hbar: real, beta: real, n: nat)

  /** The configured domain: positive scales and at least two slices. */
  predicate Valid(p: Params)
  {
    p.m > 0.0 && p.hbar > 0.0 && p.beta > 0.0 && p.n >= 2
  }

  /** The slice width `dtau = beta / N`. */
  function Dtau(p: Params): (dt: real)
    requires Valid(p)
    ensures dt > 0.0
  {
    p.beta / (p.n as real)
  }

  /** The kinetic prefactor `m / (2 * dtau)`. */
  function Coupling(p: Params): (c: real)
    requires Valid(p)
    ensures c > 0.0
  {
    p.m / (2.0 * Dtau(p))
  }

  /** A product of two reals, with the sign facts the proofs rely on. */
  function Product(a: real, b: real): (r: real)
    ensures a > 0.0 && b > 0.0 ==> r > 0.0
    ensures a < 0.0 && b < 0.0 ==> r > 0.0
    ensures a == 0.0 || b == 0.0 ==> r == 0.0
  {
    a * b
  }

  /** The square `x**2`: non-negative, and zero only at zero. */
  function Sq(x: real): (r: real)
    ensures r >= 0.0
    ensures r == 0.0 <==> x == 0.0
  {
    Product(x, x)
  }

  /** The harmonic potential `0.5 * m * omega**2 * x**2`. */
  function Harmonic(m: real, omega: real, x: real): (r: real)
    ensures m >= 0.0 ==> r >= 0.0
    ensures x == 0.0 ==> r == 0.0
  {
    var k := 0.5 * m * Sq(omega);
    assert m >= 0.0 ==> k >= 0.0;
    k * Sq(x)
  }

  /** The harmonic potential as the pluggable `V` the engine takes. */
  function HarmonicV(m: real, omega: real): real -> real
  {
    x => Harmonic(m, omega, x)
  }

  /** A potential bounded below by zero, as the harmonic one is for m >= 0. */
  ghost predicate NonNegative(V: real -> real)
  {
    forall x :: V(x) >= 0.0
  }

  lemma HarmonicIsNonNegative(m: real, omega: real)
    requires m >= 0.0
    ensures NonNegative(HarmonicV(m, omega))
  {
  }

  /** The terms of the action that involve slice i: the two kinetic links to its
      periodic neighbours plus the potential at the slice. */
  function LocalAction(p: Params, V: real -> real, path: Path, i: int): (r: real)
    requires Valid(p) && |path| == p.n && 0 <= i < p.n
    ensures NonNegative(V) ==> r >= 0.0
  {
    var ip1 := Next(i, p.n);
    var im1 := Prev(i, p.n);
    var kinetic := Coupling(p) * (Sq(path[ip1] - path[i]) + Sq(path[i] - path[im1]));
    var potential := Dtau(p) * V(path[i]);
    assert kinetic >= 0.0;
    assert NonNegative(V) ==> potential >= 0.0;
    kinetic + potential
  }

  /** LocalAction reads the path only at slice i and its two periodic neighbours. */
  lemma LocalActionIsLocal(p: Params, V: real -> real, a: Path, b: Path, i: int)
    requires Valid(p) && |a| == p.n && |b| == p.n && 0 <= i < p.n
    requires a[i] == b[i]
    requires a[Next(i, p.n)] == b[Next(i, p.n)]
    requires a[Prev(i, p.n)] == b[Prev(i, p.n)]
    ensures LocalAction(p, V, a, i) == LocalAction(p, V, b, i)
  {
  }

  /** The contribution of slice k to the total action: its link to the right
      neighbour plus its potential. */
  function Link(p: Params, V: real -> real, path: Path, k: int): real
    requires Valid(p) && |path| == p.n && 0 <= k < p.n
  {
    Coupling(p) * Sq(path[Next(k, p.n)] - path[k]) + Dtau(p) * V(path[k])
  }

  /** The links of every slice, in slice order. */
  function Links(p: Params, V: real -> real, path: Path): (r: seq<real>)
    requires Valid(p) && |path| == p.n
    ensures |r| == p.n
    ensures forall k :: 0 <= k < p.n ==> r[k] == Link(p, V, path, k)
  {
    seq(p.n, k requires 0 <= k < p.n => Link(p, V, path, k))
  }

  /** The total discretised Euclidean action of a periodic path: the reference
      against which the local action is judged. */
  function TotalAction(p: Params, V: real -> real, path: Path): real
    requires Valid(p) && |path| == p.n
  {
    Sum(Links(p, V, path))
  }

  /** Moving slice i leaves the link of every slice other than i and its left
      neighbour untouched. */
  lemma LinkUnchangedAway(p: Params, V: real -> real, path: Path, i: int, y: real, k: int)
    requires Valid(p) && |path| == p.n && 0 <= i < p.n && 0 <= k < p.n
    requires k != i && k != Prev(i, p.n)
    ensures Link(p, V, path[i := y], k) == Link(p, V, path, k)
  {
    NeighboursInverse(k, p.n);
  }

  /** Moving one slice changes the total action by exactly the change of the
      local action at that slice: every term LocalAction drops is one that
      cancels in a single-site action difference. */
  lemma LocalActionDifference(p: Params, V: real -> real, path: Path, i: int, y: real)
    requires Valid(p) && |path| == p.n && 0 <= i < p.n
    ensures LocalAction(p, V, path[i := y], i) - LocalAction(p, V, path, i)
         == TotalAction(p, V, path[i := y]) - TotalAction(p, V, path)
  {
    var n := p.n;
    var path' := path[i := y];
    var a := Links(p, V, path');
    var b := Links(p, V, path);
    var im1 := Prev(i, n);
    NeighboursInverse(i, n);
    forall k | 0 <= k < n && k != i && k != im1
      ensures a[k] == b[k]
    {
      LinkUnchangedAway(p, V, path, i, y, k);
    }
    SumDiffTwo(a, b, i, im1);
    ChangedLinks(p, V, path, i, y);
  }

  /** The two links that do change, at slice i and at its left neighbour, change
      by the local action difference. */
  lemma ChangedLinks(p: Params, V: real -> real, path: Path, i: int, y: real)
    requires Valid(p) && |path| == p.n && 0 <= i < p.n
    ensures var path', im1 := path[i := y], Prev(i, p.n);
      (Link(p, V, path', i) - Link(p, V, path, i)) + (Link(p, V, path', im1) - Link(p, V, path, im1))
      == LocalAction(p, V, path', i) - LocalAction(p, V, path, i)
  {
    var n := p.n;
    var im1, ip1 := Prev(i, n), Next(i, n);
    NeighboursInverse(i, n);
    var path' := path[i := y];
    assert path'[ip1] == path[ip1] && path'[im1] == path[im1];
    Regroup(Coupling(p), Dtau(p),
            Sq(path[ip1] - y), Sq(path[ip1] - path[i]), Sq(y - path[im1]), Sq(path[i] - path[im1]),
            V(y), V(path[i]), V(path[im1]));
  }

  /** The linear bookkeeping behind ChangedLinks, over opaque quantities. */
  lemma Regroup(c: real, dt: real, rNew: real, rOld: real, lNew: real, lOld: real,
                vNew: real, vOld: real, vLeft: real)
    ensures ((c * rNew + dt * vNew) - (c * rOld + dt * vOld)) + ((c * lNew + dt * vLeft) - (c * lOld + dt * vLeft))
         == (c * (rNew + lNew) + dt * vNew) - (c * (rOld + lOld) + dt * vOld)
  {
  }
}
