# Parallel N-body step (Lab_pthread `main_parallel.c`), modelled in Dafny

The program advances a 2-D system of point masses in fixed time steps. In each
step it does three things:

- `thread_count` POSIX threads compute every body's acceleration. They share a
  `bodies × bodies` force cache `F_q_k`.
- `computePositions` moves every body.
- `computeVelocities` updates every velocity.

This project models that core:

- **`Vectors`** (`vectors.dfy`): the vector helpers `addVectors`,
  `scaleVector`, `subtractVectors` and `mod`.
  - Vectors are exact pairs of `real`s.
  - The C library's `sqrt` is a parameter `sqrt: real -> real`.
  - `pow(d, 3)` is `d * d * d`.
  - `Sum` adds up the terms of an inner loop of `computeAccelerations`,
    skipping the body's own index. Its split and congruence lemmas are proved
    once, for any term function.
- **`Partition`** (`partition.dfy`): how `computeAccelerations` splits the
  bodies among the ranks.
  - Rank `r` gets `[r * (n / t), r * (n / t) + n / t)`.
  - The last rank's range ends at `n`.
  - Proved: the ranges are ordered, contiguous and disjoint, and together
    they cover `[0, n)` exactly.
- **`Forces`** (`forces.dfy`): what one force step computes, as functions of
  the masses and positions.
  - `Pairwise` is the term stored as `F[i][j]`, with the cubed distance floored
    at `eps`.
  - `FinalForce` is what the cache holds once every direct phase is over.
  - `StepAcceleration` is the acceleration every body ends up with.
  - Proved: facts about the cache layout, which rank writes each cell, and
    the sums the two phases accumulate.
- **`Simulation`** (`simulation.dfy`): the class `NBody` holds the global
  arrays, and its methods update them in place.
  - The direct phase and the reduction phase of `computeAccelerations`, the
    integrator, `simulate` and the time-step loop of `main` are `while`/`for`
    loops over those arrays.
  - Each is proved against the functions of `Forces`.

The threads are modelled as running one after another. First every rank's
direct phase runs (the part before `pthread_barrier_wait`), then every rank's
reduction phase. This order is sound because:

- `WriterUnique` shows that no two ranks write the same cache cell.
- `ReductionReadsLaterRank` shows that every cell a reduction reads was written
  by a direct phase before the barrier.

So the interleaving of the direct phases does not matter.

What the code computes, and the model with it:

- **The acceleration of body `i` depends on the thread count.** The direct
  phase of the rank that owns `i` adds `G·m_j/d³·(p_j − p_i)` for every `j`
  below the rank's `local_finish`. The reduction phase then reads `F[i][j]` for
  every later `j`. That cell was written by `j`'s rank as the negation of
  `j`'s own pairwise term, which is scaled by `m_i`, not `m_j`
  (`MirroredTerm`).
  - With one thread, or with equal masses, the result is the plain pairwise
    sum (`SingleThreadIsPairwiseSum`, `EqualMassesIsPairwiseSum`).
  - With two bodies of different mass at different places, one thread and two
    threads give different accelerations (`ThreadCountChangesResult`).

Three points of the code that a reader might expect to be otherwise:

- **Integration order.** `simulate` moves the positions with the old
  velocities and only then updates the velocities (lines 175-176). This is
  explicit Euler. Semi-implicit Euler would update the velocities first.
- **Direct-phase loop.** The inner loop runs `j` from `0`, not from the rank's
  own start, up to `local_finish` (line 114). So a rank also handles the pairs
  with bodies of earlier ranks. Inside one rank each pair is written once from
  each of its two rows, and the later row wins, so cell `(a, c)` holds the
  term of the higher-numbered body's row (`FinalForce`).
- **No division by the receiving mass.** The "acceleration" is the sum of the
  terms `G·m_j/d³·(p_j − p_i)`. It is never divided by `m_i`.

## Model

| member | source | states |
|---|---|---|
| Vectors.Add | main_parallel.c:35-40 | `addVectors`, component by component; no contract of its own, its laws are `AddZero` and `AddAssociates` |
| Vectors.Scale | main_parallel.c:42-47 | `scaleVector(b, a)`, scalar first; no contract of its own, its laws are `NegNeg`, `NegScaledDifference` and `ScaleCancels` |
| Vectors.Subtract | main_parallel.c:49-54 | `subtractVectors`; no contract of its own, its laws are `NegScaledDifference` and `ModOfDifferenceSymmetric` |
| Vectors.Neg | main_parallel.c:122 | `scaleVector(-1, ·)`, the negation stored in the mirrored cell; no contract of its own, its laws are `NegNeg` and `NegScaledDifference` |
| Vectors.Mod | main_parallel.c:56-59 | `mod`: the square root, given as a parameter, of `x² + y²`; no contract of its own, its laws are `ModOfDifferenceSymmetric` and `ZeroHasNoLength` |
| Vectors.Cube | main_parallel.c:118 | `pow(·, 3)` as an exact cube; no contract of its own, used through `ZeroHasNoLength` and `CoincidentBodiesUseFloor` |
| Vectors.Sum | main_parallel.c:114-142 | the terms an inner loop adds over `[lo, hi)`, skipping one index, in increasing order; no contract of its own, its laws are `SumSplit` and `SumCongruent` |
| Vectors.AddZero | main_parallel.c:35-40 | the zero vector is the identity of `addVectors` on both sides, so the reset at lines 112-113 starts an empty sum |
| Vectors.AddAssociates | main_parallel.c:35-40 | `addVectors` is associative, so a sum may be split into two stretches |
| Vectors.NegNeg | main_parallel.c:42-47 | negating twice with `scaleVector(-1, ·)` gives back the vector |
| Vectors.NegScaledDifference | main_parallel.c:42-54 | the negation of `scaleVector(s, a − b)` is `scaleVector(s, b − a)` |
| Vectors.ScaleCancels | main_parallel.c:42-47 | scaling a non-zero vector by two different scalars gives two different vectors |
| Vectors.ModOfDifferenceSymmetric | main_parallel.c:49-59 | `mod(a − b) == mod(b − a)`, whatever the square root |
| Vectors.ZeroHasNoLength | main_parallel.c:56-59 | the cubed length of the zero vector is 0 when `sqrt(0) == 0` |
| Vectors.SumSplit | main_parallel.c:114-130 | a sum of the terms an inner loop adds, skipping the body's own index, is the sum over a first stretch plus the sum over the rest |
| Vectors.SumCongruent | main_parallel.c:136-142 | two loops that add equal terms at every index they visit end with equal sums |
| Partition.Share | main_parallel.c:103 | `local_n = bodies / thread_count`, non-negative operands so C's truncation agrees; no contract of its own, bounded by `SharesFit` |
| Partition.Start | main_parallel.c:105 | `local_start = my_rank * local_n`; no contract of its own, related to `Finish` by `Contiguous` and `Ordered` |
| Partition.Finish | main_parallel.c:103-108 | every rank's range satisfies `local_start <= local_finish <= bodies` |
| Partition.SharesFit | main_parallel.c:103-106 | `k` shares of `bodies / thread_count` fit in `bodies` for every `k <= thread_count` |
| Partition.Contiguous | main_parallel.c:103-108 | each rank's `local_finish` is the next rank's `local_start` |
| Partition.Ordered | main_parallel.c:103-108 | a lower rank's range lies entirely below a higher rank's range |
| Partition.Disjoint | main_parallel.c:103-108 | the ranges of two distinct ranks share no body |
| Partition.Owner | main_parallel.c:103-108 | every body lies in the range of some rank below `thread_count` |
| Partition.OwnerUnique | main_parallel.c:103-108 | a body lies in a rank's range if and only if that rank is its owner |
| Partition.CoveredPrefix | main_parallel.c:103-108 | ranks `0 .. k-1` together cover exactly `[0, local_finish of rank k-1)` |
| Partition.ExactCover | main_parallel.c:103-108 | all ranks together cover exactly `[0, bodies)` |
| Partition.MoreThreadsThanBodies | main_parallel.c:103-108 | with more threads than bodies every rank but the last has the empty range at 0 |
| Forces.DistCubed | main_parallel.c:118 | `pow(mod(positions[i] − positions[j]), 3)`; no contract of its own, its laws are `DivisorSymmetric` and `CoincidentBodiesUseFloor` |
| Forces.Pull | main_parallel.c:121-125 | `scaleVector(GravConstant * m / d, positions[j] − positions[i])`, the expression of lines 121 and 125; no contract of its own, its law is `PullDependsOnMass` |
| Forces.Pairwise | main_parallel.c:118-127 | the value stored in `F[i][j]`: `Pull` with `masses[j]` and the divisor chosen at line 119; no contract of its own, its laws are `MirroredTerm` and `EqualMassesMirror`, and `PairStep` proves the stores compute it |
| Forces.FinalForce | main_parallel.c:110-131 | cell `(a, c)` once every direct phase is over: `Pairwise(a, c)` when `a > c`, else the negation of `Pairwise(c, a)`; no contract of its own, its law is `FinalForceAntisymmetric`, and `DirectPhases` proves the cache holds it |
| Forces.WrittenBy | main_parallel.c:110-127 | the cells the direct phase of a rank writes; no contract of its own, characterised by `WrittenByOwner` |
| Forces.PairSum | main_parallel.c:114-130 | the sum the direct-phase row of body `i` builds; no contract of its own, its laws are `PairSumSplit` and `CrossSumOfEqualMasses`, and `DirectRow` proves the loop computes it |
| Forces.CrossSum | main_parallel.c:136-142 | the sum of the mirrored terms of the later bodies; no contract of its own, its laws are `CrossSumOfEqualMasses` and `CacheSumOfFinalForces` |
| Forces.CacheSum | main_parallel.c:136-142 | the sum of the cache cells the reduction row of body `i` adds; no contract of its own, `ReduceRow` proves the loop computes it and `CacheSumOfFinalForces` relates it to `CrossSum` |
| Forces.StepAcceleration | main_parallel.c:103-144 | body `i`'s acceleration after both phases: its rank's `PairSum` below `local_finish` plus the `CrossSum` of the later bodies; no contract of its own, its laws are `SingleThreadIsPairwiseSum`, `EqualMassesIsPairwiseSum`, `ThreadCountChangesResult`, `TwoEqualBodiesOpposite` and `LoneBodyFeelsNoForce`, and `ComputeAccelerations` proves the threads compute it |
| Forces.Accelerations | main_parallel.c:103-144 | the accelerations of all bodies after one force step, one `StepAcceleration` per body |
| Forces.Divisor | main_parallel.c:118-127 | the divisor is the cubed distance when that is at least `eps`, and `eps` otherwise, so it is never below `eps` and never zero |
| Forces.Idx | main_parallel.c:121-122 | the cell `i * bodies + j` of a pair of bodies lies inside the `bodies * bodies` cells allocated at line 199 |
| Forces.IdxUnique | main_parallel.c:121-122 | two pairs with the same cell index are the same pair |
| Forces.IdxInjective | main_parallel.c:121-122 | the cell of `(i, j)` is shared with no other pair |
| Forces.WrittenByOwner | main_parallel.c:110-127 | a rank's direct phase writes cell `(a, c)` if and only if `a != c` and the rank owns the higher of `a` and `c`; the diagonal is never written |
| Forces.WriterUnique | main_parallel.c:110-127 | no cell is written by the direct phases of two different ranks |
| Forces.ReductionReadsLaterRank | main_parallel.c:132-140 | every cell a reduction phase reads belongs to a later body and was written by that body's rank before the barrier |
| Forces.FinalForceAntisymmetric | main_parallel.c:121-126 | once all direct phases are over, `F[c][a]` is the negation of `F[a][c]` for every off-diagonal pair |
| Forces.DivisorSymmetric | main_parallel.c:118-127 | the floored cubed distance is the same in both directions |
| Forces.MirroredTerm | main_parallel.c:121-126 | the negated mirror cell `F[j][i]` is the pull towards `j` scaled by the mass of `i`, not of `j` |
| Forces.EqualMassesMirror | main_parallel.c:121-126 | for bodies of equal mass the negated mirror cell equals the pairwise term itself |
| Forces.CoincidentBodiesUseFloor | main_parallel.c:118-127 | two bodies at the same place use the divisor `eps` |
| Forces.PairSumSplit | main_parallel.c:114-130 | the direct-phase sum over `[lo, hi)` is the sum over `[lo, mid)` plus the sum over `[mid, hi)` |
| Forces.CrossSumOfEqualMasses | main_parallel.c:136-142 | with equal masses the mirrored terms a reduction phase adds equal the pairwise terms |
| Forces.CacheSumOfFinalForces | main_parallel.c:134-143 | what the reduction loop adds up from a cache filled by the direct phases is the sum of the mirrored terms of the later bodies |
| Forces.SingleThreadIsPairwiseSum | main_parallel.c:103-144 | with one thread every body's acceleration is the plain sum of the pairwise terms of all other bodies |
| Forces.EqualMassesIsPairwiseSum | main_parallel.c:103-144 | with equal masses every thread count gives the plain sum of the pairwise terms |
| Forces.PullDependsOnMass | main_parallel.c:121-125 | between two distinct places, the term computed with one mass differs from the term computed with another |
| Forces.ThreadCountChangesResult | main_parallel.c:103-144 | for two bodies of different mass at different places, body 0's acceleration with one thread is its pairwise term, with two threads it is the term scaled by its own mass, and the two differ |
| Forces.TwoEqualBodiesOpposite | main_parallel.c:103-144 | two bodies of equal mass get opposite accelerations, for any thread count |
| Forces.LoneBodyFeelsNoForce | main_parallel.c:110-144 | a single body ends the step with zero acceleration |
| Simulation.Advance | main_parallel.c:84-99 | `xs[i] + dt · ys[i]` for every body, the update of both integrator loops, one entry per body; `ComputePositions` and `ComputeVelocities` prove the loops compute it |
| Simulation.Trajectory | main_parallel.c:212-225 | the positions and velocities after `k` calls of `simulate`, one entry per body; `Run` proves the time-step loop computes it |
| Simulation.TrajectoryCompose | main_parallel.c:212-225 | `k1` steps followed by `k2` more from where they end give the state after `k1 + k2` steps |
| Simulation.RowStep | main_parallel.c:116-127 | handling a pair `(i, j)` with `i != j` sets `F[i][j]` to the pairwise term and `F[j][i]` to its negation and leaves every other cell as the row left it |
| Simulation.RowSkip | main_parallel.c:114-116 | skipping `j == i` changes no cell |
| Simulation.NBody.constructor | main_parallel.c:68-71 | allocates the body arrays and the `bodies * bodies` cache, holding the given configuration |
| Simulation.NBody.PairStep | main_parallel.c:116-128 | for `i != j`, `F[i][j]` becomes the pairwise term, `F[j][i]` its negation and no other cache cell changes; the term is added to `accelerations[i]` and no other acceleration changes |
| Simulation.NBody.DirectRow | main_parallel.c:110-131 | after the row for body `i`, `accelerations[i]` is the sum of the pairwise terms of every `j != i` below `local_finish`, no other acceleration changes, and the cache cells are as the row writes them |
| Simulation.NBody.DirectPhase | main_parallel.c:103-131 | after a rank's direct phase, each of its bodies holds the sum over `[0, local_finish)`, and exactly the cells the rank writes hold their final terms |
| Simulation.NBody.ReduceRow | main_parallel.c:134-143 | adds the cache cells `F[i][j]` for `j` from `local_finish` to `bodies`, skipping `i`, to `accelerations[i]` and changes no other acceleration |
| Simulation.NBody.ReductionPhase | main_parallel.c:133-144 | each body of the rank gets the cache cells past `local_finish` added; the last rank's skip adds nothing since its remaining range is empty |
| Simulation.NBody.DirectPhases | main_parallel.c:110-132 | once every rank has run its direct phase, each body holds the pairwise sum below its rank's `local_finish`, every cell off the diagonal holds its final term, and the diagonal is untouched |
| Simulation.NBody.ReductionPhases | main_parallel.c:133-144 | from that state, once every rank has run its reduction phase, every body holds its `StepAcceleration` |
| Simulation.NBody.ComputeAccelerations | main_parallel.c:167-174 | after all direct phases and then all reduction phases, every body has its `StepAcceleration`, and every off-diagonal cache cell holds its final term while the diagonal is untouched |
| Simulation.NBody.ComputeVelocities | main_parallel.c:84-90 | every velocity becomes `velocity + DT · acceleration` |
| Simulation.NBody.ComputePositions | main_parallel.c:93-99 | every position becomes `position + DT · velocity` |
| Simulation.NBody.Simulate | main_parallel.c:165-177 | one step sets the accelerations from the old positions, moves the positions with the old velocities, then updates the velocities with the new accelerations; every cache cell off the diagonal holds its final term and the diagonal keeps its old value |
| Simulation.NBody.Run | main_parallel.c:212-225 | after `timeSteps` steps the positions and velocities are the `Trajectory` of the initial state |

## Left out

- Thread creation, joining and the barrier (lines 132, 167-174, 196, 204, 230-231) are not modelled as concurrency. The ranks run in sequence: every direct phase first, then every reduction phase. `WriterUnique` and `ReductionReadsLaterRank` are what make this sequential order equivalent.
- Floating point: `double` rounding is not modelled. All arithmetic is exact over `real`. `sqrt` is an arbitrary function passed in, and `pow(d, 3)` is `d * d * d`.
- `initiateSystem` (lines 61-81) reads the configuration from a file. The constructor takes the configuration as parameters instead. The second call at line 205 re-reads the same file and leaks the first arrays, so it leaves the same state and is not modelled.
- The argument check, the final printing and the timing in `main` (lines 185-192, 206-211, 218-235), and `GET_TIME` (lines 15-19), are output and clock access. They are not modelled.
- The commented-out `resolveCollisions` (lines 148-162) is not compiled, so it is not modelled.
- `malloc` leaves `accelerations` and `F_q_k` uninitialised. The constructor fills them with zeros. The proved results do not depend on these initial contents, except the diagonal cells of `F_q_k`, which no step ever writes or reads.
- `int` overflow of `i * bodies + j` and `bodies * bodies` (for more than 46340 bodies) is not modelled. Indices are unbounded integers.
- A thread count below 1 is excluded by the `requires` of the constructor. In the source the loop at line 167 then starts no thread, so `computeAccelerations` never runs and its division at line 103 never happens. `accelerations` keeps what it held, which on the first step is the uninitialised memory allocated at line 71. `computePositions` and `computeVelocities` (lines 175-176) then use those values. `pthread_barrier_init` with a count of 0 (line 204) fails, and its result is not checked.
- Simulation.NBody.Run: states only the positions and velocities after the loop, not the accelerations and the cache, which the next step recomputes anyway.
