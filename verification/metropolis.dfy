/**
 The single-site Metropolis update. The program draws from one global random
 stream; here that stream is an explicit function from draw number to a raw
 uniform value in [0, 1), together with the number of draws consumed so far.
 The exponential is an uninterpreted parameter `expf`.
 */
module Metropolis {
  import opened Lattice
  import opened Action

  /** A random stream: draw number k yields the raw value rng(k). */
  type Stream = nat -> real

  /** Every raw draw lies in [0, 1), as a uniform generator's do. */
  ghost predicate UnitDraws(rng: Stream)
  {
    forall k: nat :: 0.0 <= rng(k) < 1.0
  }

  /** A raw draw r scaled to a width w. */
  function Scale(w: real, r: real): (t: real)
    ensures w > 0.0 && 0.0 <= r < 1.0 ==> 0.0 <= t < w
  {
    assert w > 0.0 && 0.0 <= r < 1.0 ==> w * (1.0 - r) > 0.0;
    w * r
  }

  /** A uniform draw on [low, high) built from one raw draw r: low + (high - low) * r. */
  function Uniform(low: real, high: real, r: real): (x: real)
    ensures low < high && 0.0 <= r < 1.0 ==> low <= x < high
  {
    low + Scale(high - low, r)
  }

  /** The candidate position: the old value moved by an offset in [-stepSize, stepSize). */
  function Proposal(path: Path, i: int, stepSize: real, r: real): (x: real)
    requires 0 <= i < |path|
    ensures stepSize > 0.0 && 0.0 <= r < 1.0 ==> path[i] - stepSize <= x < path[i] + stepSize
  {
    path[i] + Uniform(-stepSize, stepSize, r)
  }

  /** The local action difference `dS` of moving slice i to x. */
  function DeltaS(p: Params, V: real -> real, path: Path, i: int, x: real): real
    requires Valid(p) && |path| == p.n && 0 <= i < p.n
  {
    LocalAction(p, V, path[i := x], i) - LocalAction(p, V, path, i)
  }

  /** The path after the update, whether it was accepted, and the stream position
      after the draws it consumed. */
  datatype Outcome = Outcome(path: Path, accepted: bool, pos: nat)

  /** One Metropolis update of slice i: draw the offset, compare local actions
      around a tentative write, then keep the write or restore the old value.
      The acceptance draw is taken only when the action does not decrease. */
  function Update(p: Params, V: real -> real, expf: real -> real, path: Path, i: int,
                  stepSize: real, rng: Stream, pos: nat): (r: Outcome)
    requires Valid(p) && |path| == p.n && 0 <= i < p.n
    ensures |r.path| == |path|
    ensures var x := Proposal(path, i, stepSize, rng(pos));
            r.accepted ==> r.path == path[i := x]
    ensures !r.accepted ==> r.path == path
    ensures var x := Proposal(path, i, stepSize, rng(pos));
            var dS := DeltaS(p, V, path, i, x);
            r.accepted <==> (dS < 0.0 || rng(pos + 1) < expf(-dS / p.hbar))
    ensures var x := Proposal(path, i, stepSize, rng(pos));
            r.pos == if DeltaS(p, V, path, i, x) < 0.0 then pos + 1 else pos + 2
  {
    var oldX := path[i];
    var newX := oldX + Uniform(-stepSize, stepSize, rng(pos));
    var oldS := LocalAction(p, V, path, i);
    var trial := path[i := newX];
    var newS := LocalAction(p, V, trial, i);
    var dS := newS - oldS;
    if dS < 0.0 then
      Outcome(trial, true, pos + 1)
    else if rng(pos + 1) < expf(-dS / p.hbar) then
      Outcome(trial, true, pos + 2)
    else
      Outcome(trial[i := oldX], false, pos + 2)
  }

  /** The update is the Metropolis rule for the TOTAL action of the path: it
      accepts a move that lowers the total action, and otherwise accepts iff the
      acceptance draw falls below the Boltzmann factor of the total change. */
  lemma UpdateIsMetropolisOnTotalAction(p: Params, V: real -> real, expf: real -> real, path: Path,
                                        i: int, stepSize: real, rng: Stream, pos: nat)
    requires Valid(p) && |path| == p.n && 0 <= i < p.n
    ensures var x := Proposal(path, i, stepSize, rng(pos));
            var total := TotalAction(p, V, path[i := x]) - TotalAction(p, V, path);
            var r := Update(p, V, expf, path, i, stepSize, rng, pos);
            && (r.accepted <==> (total < 0.0 || rng(pos + 1) < expf(-total / p.hbar)))
            && TotalAction(p, V, r.path) == if r.accepted then TotalAction(p, V, path) + total
                                            else TotalAction(p, V, path)
  {
    var x := Proposal(path, i, stepSize, rng(pos));
    LocalActionDifference(p, V, path, i, x);
  }

  /** The update reads the stream only at the offset draw and, when the action
      does not decrease, at the acceptance draw; and it consults the exponential
      only in that case, at -dS / hbar. When the action decreases the move is
      accepted whatever the acceptance draw and exponential are. */
  lemma UpdateReadsOnlyItsDraws(p: Params, V: real -> real, expf1: real -> real, expf2: real -> real,
                                path: Path, i: int, stepSize: real, rng1: Stream, rng2: Stream, pos: nat)
    requires Valid(p) && |path| == p.n && 0 <= i < p.n
    requires rng1(pos) == rng2(pos)
    ensures var dS := DeltaS(p, V, path, i, Proposal(path, i, stepSize, rng1(pos)));
            var r1 := Update(p, V, expf1, path, i, stepSize, rng1, pos);
            var r2 := Update(p, V, expf2, path, i, stepSize, rng2, pos);
            && (dS < 0.0 ==> r1.accepted && r1 == r2)
            && (rng1(pos + 1) == rng2(pos + 1) && expf1(-dS / p.hbar) == expf2(-dS / p.hbar) ==> r1 == r2)
  {
  }

  /** The program's in-place procedure on an array: write the candidate, then
      restore the old value on rejection. It leaves the array exactly as the
      functional Update describes. */
  method UpdateInPlace(p: Params, V: real -> real, expf: real -> real, a: array<real>, i: int,
                       stepSize: real, rng: Stream, pos: nat) returns (accepted: bool, next: nat)
    requires Valid(p) && a.Length == p.n && 0 <= i < p.n
    modifies a
    ensures var r := Update(p, V, expf, old(a[..]), i, stepSize, rng, pos);
            a[..] == r.path && accepted == r.accepted && next == r.pos
  {
    var oldX := a[i];
    var newX := oldX + Uniform(-stepSize, stepSize, rng(pos));
    var oldS := LocalAction(p, V, a[..], i);
    a[i] := newX;
    var newS := LocalAction(p, V, a[..], i);
    var dS := newS - oldS;
    if dS < 0.0 {
      accepted, next := true, pos + 1;
    } else if rng(pos + 1) < expf(-dS / p.hbar) {
      accepted, next := true, pos + 2;
    } else {
      a[i] := oldX;
      accepted, next := false, pos + 2;
    }
  }
}
