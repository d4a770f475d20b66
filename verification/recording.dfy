/**
 Append-only series recorded during a run: after step s, value(s) is appended
 when take(s) holds. The energy samples and the stored paths are both of this
 shape; stating their schedules once, for any test and any value, keeps the
 facts about the run's bookkeeping apart from the physics.
 */
module Recording {

  /** The values of the steps s < k that pass `take`, in step order. */
  function Recorded<T>(take: nat -> bool, value: nat -> T, k: nat): (r: seq<T>)
    ensures |r| <= k
  {
    if k == 0 then []
    else Recorded(take, value, k - 1) + (if take(k - 1) then [value(k - 1)] else [])
  }

  /** The steps s < k that pass `take`, in step order. */
  function Steps(take: nat -> bool, k: nat): (r: seq<nat>)
    ensures |r| <= k
  {
    if k == 0 then []
    else Steps(take, k - 1) + (if take(k - 1) then [k - 1] else [])
  }

  /** The recorded steps are exactly the steps below k that pass the test, and
      they are listed in strictly increasing order. */
  lemma {:induction false} StepsExact(take: nat -> bool, k: nat)
    ensures forall s: nat :: s in Steps(take, k) <==> s < k && take(s)
    ensures forall a, b :: 0 <= a < b < |Steps(take, k)| ==> Steps(take, k)[a] < Steps(take, k)[b]
  {
    if k > 0 {
      StepsExact(take, k - 1);
      var prev := Steps(take, k - 1);
      if take(k - 1) {
        assert Steps(take, k) == prev + [k - 1];
        forall a | 0 <= a < |prev|
          ensures prev[a] < k - 1
        {
          assert prev[a] in prev;
        }
      } else {
        assert Steps(take, k) == prev;
      }
    }
  }

  /** Entry j of the series is the value at the j-th recorded step. */
  lemma {:induction false} RecordedAtSteps<T>(take: nat -> bool, value: nat -> T, k: nat)
    ensures |Recorded(take, value, k)| == |Steps(take, k)|
    ensures forall j :: 0 <= j < |Steps(take, k)| ==> Recorded(take, value, k)[j] == value(Steps(take, k)[j])
  {
    if k > 0 {
      RecordedAtSteps(take, value, k - 1);
      var prev, prevSteps := Recorded(take, value, k - 1), Steps(take, k - 1);
      if take(k - 1) {
        assert Recorded(take, value, k) == prev + [value(k - 1)];
        assert Steps(take, k) == prevSteps + [k - 1];
      } else {
        assert Recorded(take, value, k) == prev;
        assert Steps(take, k) == prevSteps;
      }
    }
  }

  /** When every step from m on is taken and no earlier one is, the series has
      one entry per step from m to k - 1, and entry j is the value at step m + j. */
  lemma {:induction false} RecordedFromThreshold<T>(take: nat -> bool, value: nat -> T, m: nat, k: nat)
    requires forall s: nat :: take(s) <==> s >= m
    ensures |Recorded(take, value, k)| == if k <= m then 0 else k - m
    ensures forall j :: 0 <= j < |Recorded(take, value, k)| ==> Recorded(take, value, k)[j] == value(m + j)
  {
    if k > 0 {
      RecordedFromThreshold(take, value, m, k - 1);
      var prev := Recorded(take, value, k - 1);
      if k - 1 >= m {
        assert take(k - 1);
        assert Recorded(take, value, k) == prev + [value(k - 1)];
      } else {
        assert !take(k - 1);
        assert Recorded(take, value, k) == prev;
      }
    }
  }
}
