# Metropolis path-integral engine for the quantum harmonic oscillator

This project models the computational core of `qho.py`, a path-integral Monte
Carlo estimate of the ground-state energy of a one-dimensional quantum
oscillator. The model states and proves properties of that core in Dafny.
Imaginary time is cut into N slices on a periodic lattice, and a path is one
position per slice. The core has four parts:

- **`local_action`** collects the terms of the discretised Euclidean action
  that involve slice i: the two kinetic links to the periodic neighbours
  `(i ± 1) % N`, plus `dtau * V(path[i])`.
- **`metropolis_update`** proposes a move of slice i by a uniform offset. It
  writes the candidate into the path tentatively and compares the local action
  before and after the write. It accepts when `dS < 0`, or when a second
  uniform draw falls below `exp(-dS / hbar)`. On rejection it restores the old
  value.
- **The run loop** does one in-order sweep over slices 0..N-1 per step. It
  counts attempted and accepted updates. From step `equil_steps` on, it
  records an energy sample after every sweep. Within those steps, every
  multiple of 500 also stores a copy of the path. At the end it reports the
  acceptance ratio.
- **`energy_estimate`** adds a kinetic term to the mean potential over the
  slices. The kinetic term is built from the squared differences between the
  path and its right roll by one.

Floats become `real`. The program's global constants become a `Params` value
and the potential becomes a parameter `V`. The numpy random stream becomes an
explicit function `rng` from draw number to raw value in [0, 1), together with
the number of draws consumed so far. `np.exp` becomes an uninterpreted
parameter `expf`.

The modules follow the program's structure:

- `Lattice`: the periodic neighbours.
- `Sums`: finite sums and means.
- `Action`: the potential, the local action, and the total action that serves
  as the reference definition.
- `Metropolis`: one update, in two forms. `Update` is a pure function;
  `UpdateInPlace` mutates an array the way the program does.
- `Energy`: the estimator.
- `SweepDriver`: one sweep.
- `Recording`: the append-only series.
- `Sampling`: the run.

Every in-place method (`UpdateInPlace`, `SweepInPlace`, `RunStep`) is proved
equal to its functional counterpart. `Run` allocates its own array and is
proved to return exactly what the functional run describes.

## Model

| member | source | states |
|---|---|---|
| Lattice.Next | qho.py:22 | the right neighbour lies in [0, N); it is i + 1 except that slice N-1 wraps to 0 |
| Lattice.Prev | qho.py:23 | the left neighbour lies in [0, N); it is i - 1 except that slice 0 wraps to N-1 |
| Lattice.NeighboursAreFloorMod | qho.py:22-23 | both neighbours equal Python's floor remainder of i ± 1 by N: a value in [0, N) whose difference from the dividend is a multiple of N |
| Lattice.NeighboursInverse | qho.py:22-23 | stepping right then left, or left then right, returns to the same slice; neither neighbour is the slice itself |
| Lattice.NextIsOnto | qho.py:22 | every slice is the right neighbour of some slice, so the ring has no gaps |
| Sums.Mean | qho.py:50 | the mean of non-negative values is non-negative |
| Sums.MeanConstant | qho.py:50 | the mean of a constant sequence is that constant |
| Action.Dtau | qho.py:10 | the slice width beta / N is positive |
| Action.Coupling | qho.py:25 | the kinetic prefactor m / (2 dtau) is positive |
| Action.Sq | qho.py:25 | a square is non-negative, and zero exactly at zero |
| Action.Harmonic | qho.py:13-15 | the harmonic potential is non-negative for m >= 0 and vanishes at x = 0 |
| Action.HarmonicIsNonNegative | qho.py:13-15 | the harmonic potential is non-negative everywhere when m >= 0 |
| Action.LocalAction | qho.py:21-27 | the local action is non-negative whenever V is |
| Action.LocalActionIsLocal | qho.py:21-27 | two paths that agree at slice i and at its two periodic neighbours have the same local action at i |
| Action.LinkUnchangedAway | qho.py:25-26 | moving slice i leaves every link untouched except those of i and its left neighbour |
| Action.LocalActionDifference | qho.py:20-27 | moving slice i changes the local action at i by exactly the change in the total action of the path, so the dropped terms all cancel |
| Metropolis.Uniform | qho.py:32 | the offset drawn from a raw value in [0, 1) lies in [-step_size, step_size) |
| Metropolis.Proposal | qho.py:31-32 | the candidate lies within step_size of the old value |
| Metropolis.Update | qho.py:30-44 | the length never changes. An accepted update leaves the path with only slice i replaced by the candidate, and a rejected one leaves it exactly as before. Acceptance holds iff dS < 0 or the second draw is below expf(-dS/hbar). The second draw is consumed only when dS >= 0 |
| Metropolis.UpdateIsMetropolisOnTotalAction | qho.py:34-40 | the update is the Metropolis rule for the total action of the path. The total action of the result is the old one plus the change when accepted, and unchanged when rejected |
| Metropolis.UpdateReadsOnlyItsDraws | qho.py:40 | the result depends on the acceptance draw and the exponential only when dS >= 0. When dS < 0 the move is accepted whatever they are |
| Metropolis.UpdateInPlace | qho.py:30-44 | the tentative write followed by a restore on rejection leaves the array, the acceptance flag and the stream position exactly as Update describes |
| Energy.RollRight | qho.py:49 | `np.roll(path, 1)` puts at slice k the entry of its left neighbour |
| Energy.LeftDiffs | qho.py:49 | entry k of the squared differences is `(path[k] - np.roll(path, 1)[k])**2`, the program's vectorised form, although it is computed from the left neighbour directly |
| Energy.KineticEstimate | qho.py:49 | the kinetic estimate is non-negative |
| Energy.PotentialEstimate | qho.py:50 | the mean potential is non-negative whenever V is |
| Energy.EnergyEstimate | qho.py:47-51 | the estimate is at least the mean potential, and non-negative whenever V is |
| Energy.ConstantPathEnergy | qho.py:47-51 | on a constant path c the kinetic estimate is 0 and the energy estimate is V(c) |
| Energy.ZeroPathHarmonicEnergy | qho.py:47-51 | the all-zero starting path has energy estimate 0 under the harmonic potential |
| Energy.KineticZeroIffConstant | qho.py:49 | the kinetic estimate is zero iff the path is constant |
| Energy.LeftAndRightDifferencesAgree | qho.py:49 | over a full period the estimator's left differences and the action's right differences have the same sum |
| SweepDriver.Step | qho.py:68-70 | one update adds 1 to the attempt count and 1 or 2 to the stream position. If the accept count stays put, the path is as it was; otherwise it goes up by 1 with slice i at the candidate. An accepted zero offset is counted although nothing moves |
| SweepDriver.SweepFrom | qho.py:67-70 | the rest of a sweep from slice i adds N - i attempts and at most N - i acceptances, and consumes between N - i and 2(N - i) draws |
| SweepDriver.Sweep | qho.py:67-70 | a sweep adds exactly N attempts and at most N acceptances |
| SweepDriver.SweepFromFrame | qho.py:67-70 | the rest of a sweep from slice i leaves earlier slices alone. With unit draws, each later slice x ends within [x - step_size, x + step_size) |
| SweepDriver.SweepStaysWithinStep | qho.py:67-70 | with unit draws, a sweep leaves every slice x within [x - step_size, x + step_size) |
| SweepDriver.SweepFromCountsMoves | qho.py:67-70 | the rest of a sweep that accepts nothing leaves the path exactly as it was |
| SweepDriver.SweepCountsMoves | qho.py:67-70 | a sweep whose accept count does not move leaves the path unchanged |
| SweepDriver.SweepInPlace | qho.py:67-70 | the in-place loop over slices 0..N-1 leaves the array and the counters exactly as Sweep describes |
| Recording.Recorded | qho.py:73-78 | a series recorded over k steps has at most k entries |
| Recording.StepsExact | qho.py:73-78 | the recorded steps are exactly the steps below k that pass the test, in strictly increasing order |
| Recording.RecordedAtSteps | qho.py:73-78 | entry j of a series is the value at the j-th recorded step |
| Recording.RecordedFromThreshold | qho.py:73-75 | a series taken at every step from m on has max(0, k - m) entries, and entry j is the value at step m + j |
| Sampling.Start | qho.py:58-61 | the run starts from the all-zero path with nothing drawn or counted |
| Sampling.AfterSteps | qho.py:66-70 | after any number of steps the accept count is at most the attempt count, and a run that has accepted nothing still holds the all-zero starting path |
| Sampling.AfterStepsTotal | qho.py:66-68 | after k steps exactly k * N updates have been attempted |
| Sampling.SamplesSchedule | qho.py:73-75 | the run holds one energy sample per step from equil_steps on, and sample j is the estimate after step equil_steps + j |
| Sampling.SnapshotsSchedule | qho.py:73-78 | a path is stored exactly for the steps s >= equil_steps with s % 500 == 0, in increasing order, and stored path j is the path left by the j-th such step |
| Sampling.SamplesNext | qho.py:73-75 | a step appends the energy after its sweep iff it is at or past equilibration |
| Sampling.SnapshotsNext | qho.py:73-78 | a step appends the path after its sweep iff it passes both the equilibration test and the interval test |
| Sampling.AcceptanceRatio | qho.py:80 | the ratio is a division by zero iff no update was attempted. Otherwise it times the attempt count is the accept count, and it lies in [0, 1] |
| Sampling.RunStep | qho.py:66-78 | one step on the array advances the path, counters, samples and stored paths exactly as the functional run does |
| Sampling.Run | qho.py:58-80 | the run returns the path and counters of the functional run after n_steps steps, with n_steps * N attempts and at most that many acceptances. If nothing was accepted, the path is still all zeros. It has max(0, n_steps - equil_steps) energy samples and the stored paths of the snapshot schedule. For n_steps > 0 its acceptance ratio lies in [0, 1] |

## Left out

- Randomness: `np.random.uniform` and `np.random.rand` (qho.py:32, 40) draw from one global stream. Here that stream is the parameter `rng`, a function from draw number to raw value, with `Uniform(low, high, r) = low + (high - low) * r`. No distribution is modelled.
- `np.exp` (qho.py:40) is the uninterpreted parameter `expf`. There is no exponential to verify against.
- Floating-point rounding: every quantity is an exact `real`.
- The statistics over the samples (`np.mean`, `np.std`, `np.sqrt`, qho.py:83-85): these are numerics, not logic.
- Printing and plotting (qho.py:81, 87-108): output only.
- The convergence of the estimate to 0.5 hbar omega, and detailed balance: statistical claims, not per-run facts.
- The commented-out anharmonic potential (qho.py:16-18): the potential is a parameter `V`, so any potential is covered.
- Action.Valid: the module-level constants (qho.py:5-10, 54-56) become parameters, restricted to m > 0, hbar > 0, beta > 0 and N >= 2. The program raises an exception in three cases. N = 0 or beta = 0 divides by zero (qho.py:10, 25). N < 0 is rejected by `np.zeros` (qho.py:58). n_steps <= 0 divides by zero at qho.py:80, which the model keeps as `Ratio.ZeroDivision`. With hbar = 0, `-dS / hbar` on a float64 at qho.py:40 gives an infinity or a NaN with a warning rather than an error. The program then runs a zero-temperature rule: it accepts dS < 0 and rejects dS >= 0. The model does not cover hbar = 0, m = 0, negative scales, or a single slice.
- Stored paths before equilibration: the snapshot interval test (qho.py:77) is nested inside the equilibration test (qho.py:73), so no path is stored before equilibration. The model follows the code here. A reading in which the two tests are independent would also store paths at multiples of 500 before equil_steps.
