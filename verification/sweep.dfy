/**
 One sweep: a single in-order pass of Metropolis updates over slices 0..N-1.
 Each update sees the path as left by the updates before it in the same pass.
 The attempted and accepted counters travel with the path and the stream
 position.
 */
module SweepDriver {
  import opened Lattice
  import opened Action
  import opened Metropolis

  /** Everything a run holds fixed: the parameters, the potential, the
      exponential, the proposal step size and the random stream. */
  datatype Engine = Engine(p: Params, V: real -> real, expf: real -> real, stepSize: real, rng: Stream)

  /** The evolving state of a run: the path, the stream position, and the
      counters `accept_count` and `total_updates`. */
  datatype State = State(path: Path, pos: nat, accepted: nat, total: nat)

  /** The state after the Metropolis update of slice i. */
  function Step(e: Engine, s: State, i: nat): (r: State)
    requires Valid(e.p) && |s.path| == e.p.n && i < e.p.n
    ensures |r.path| == e.p.n && r.total == s.total + 1
    ensures s.accepted <= r.accepted <= s.accepted + 1
    ensures s.pos + 1 <= r.pos <= s.pos + 2
    ensures r.accepted == s.accepted ==> r.path == s.path
    ensures r.accepted != s.accepted ==> r.path == s.path[i := Proposal(s.path, i, e.stepSize, e.rng(s.pos))]
  {
    var u := Update(e.p, e.V, e.expf, s.path, i, e.stepSize, e.rng, s.pos);
    State(u.path, u.pos, s.accepted + (if u.accepted then 1 else 0), s.total + 1)
  }

  /** The rest of a sweep, from slice i to the last slice. */
  function SweepFrom(e: Engine, s: State, i: nat): (r: State)
    requires Valid(e.p) && |s.path| == e.p.n && i <= e.p.n
    ensures |r.path| == e.p.n
    ensures r.total == s.total + (e.p.n - i)
    ensures s.accepted <= r.accepted <= s.accepted + (e.p.n - i)
    ensures s.pos + (e.p.n - i) <= r.pos <= s.pos + 2 * (e.p.n - i)
    decreases e.p.n - i
  {
    if i == e.p.n then s else SweepFrom(e, Step(e, s, i), i + 1)
  }

  /** A full sweep: N attempted updates, at most N of them accepted, and
      between N and 2N draws consumed. */
  function Sweep(e: Engine, s: State): (r: State)
    requires Valid(e.p) && |s.path| == e.p.n
    ensures |r.path| == e.p.n
    ensures r.total == s.total + e.p.n
    ensures s.accepted <= r.accepted <= s.accepted + e.p.n
    ensures s.pos + e.p.n <= r.pos <= s.pos + 2 * e.p.n
  {
    SweepFrom(e, s, 0)
  }

  /** The rest of a sweep from slice i leaves the slices before i alone, and,
      when every draw lies in [0, 1), leaves each later slice x within
      [x - stepSize, x + stepSize): each slice is proposed exactly once per sweep. */
  lemma {:induction false} SweepFromFrame(e: Engine, s: State, i: nat)
    requires Valid(e.p) && |s.path| == e.p.n && i <= e.p.n
    ensures forall j :: 0 <= j < i ==> SweepFrom(e, s, i).path[j] == s.path[j]
    ensures UnitDraws(e.rng) && e.stepSize > 0.0 ==>
              forall j :: i <= j < e.p.n ==>
                s.path[j] - e.stepSize <= SweepFrom(e, s, i).path[j] < s.path[j] + e.stepSize
    decreases e.p.n - i
  {
    if i < e.p.n {
      var next := Step(e, s, i);
      SweepFromFrame(e, next, i + 1);
    }
  }

  /** The rest of a sweep that accepts nothing leaves the path exactly as it was.
      The converse fails: an accepted zero offset is counted although nothing moves. */
  lemma {:induction false} SweepFromCountsMoves(e: Engine, s: State, i: nat)
    requires Valid(e.p) && |s.path| == e.p.n && i <= e.p.n
    ensures SweepFrom(e, s, i).accepted == s.accepted ==> SweepFrom(e, s, i).path == s.path
    decreases e.p.n - i
  {
    if i < e.p.n {
      SweepFromCountsMoves(e, Step(e, s, i), i + 1);
    }
  }

  /** A sweep whose accept count does not move leaves the path unchanged. */
  lemma SweepCountsMoves(e: Engine, s: State)
    requires Valid(e.p) && |s.path| == e.p.n
    ensures Sweep(e, s).accepted == s.accepted ==> Sweep(e, s).path == s.path
  {
    SweepFromCountsMoves(e, s, 0);
  }

  /** With every draw in [0, 1), a full sweep leaves each slice x within
      [x - stepSize, x + stepSize). */
  lemma SweepStaysWithinStep(e: Engine, s: State)
    requires Valid(e.p) && |s.path| == e.p.n
    requires UnitDraws(e.rng) && e.stepSize > 0.0
    ensures forall j :: 0 <= j < e.p.n ==>
              s.path[j] - e.stepSize <= Sweep(e, s).path[j] < s.path[j] + e.stepSize
  {
    SweepFromFrame(e, s, 0);
  }

  /** One sweep on an array updated in place, slice by slice, with the stream
      position and the counters carried alongside. */
  method SweepInPlace(e: Engine, a: array<real>, pos: nat, accepted: nat, total: nat)
    returns (pos': nat, accepted': nat, total': nat)
    requires Valid(e.p) && a.Length == e.p.n
    modifies a
    ensures State(a[..], pos', accepted', total') == Sweep(e, State(old(a[..]), pos, accepted, total))
  {
    ghost var before := State(a[..], pos, accepted, total);
    pos', accepted', total' := pos, accepted, total;
    var i := 0;
    while i < e.p.n
      invariant i <= e.p.n && a.Length == e.p.n
      invariant SweepFrom(e, State(a[..], pos', accepted', total'), i) == Sweep(e, before)
    {
      ghost var next := Step(e, State(a[..], pos', accepted', total'), i);
      total' := total' + 1;
      var acc, p := UpdateInPlace(e.p, e.V, e.expf, a, i, e.stepSize, e.rng, pos');
      pos' := p;
      if acc {
        accepted' := accepted' + 1;
      }
      assert State(a[..], pos', accepted', total') == next;
      i := i + 1;
    }
  }
}
