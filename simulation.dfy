/** The global state of main_parallel.c:28-31 and the code that updates it in
    place: both phases of `computeAccelerations` (lines 101-146), the integrator
    `computePositions` / `computeVelocities` (lines 84-99), `simulate` (lines
    165-177) and the time-step loop of `main` (lines 212-225). The threads of
    `simulate` run one after another: every rank's direct phase, then, past the
    barrier, every rank's reduction phase. */
module Simulation {
  import opened Vectors
  import opened Partition
  import opened Forces

  /** `DT` (main_parallel.c:9) */
  const DT: real := 0.05

  /** `xs[i] + dt * ys[i]` for every `i` */
  function Advance(xs: seq<Vector>, ys: seq<Vector>, dt: real): (r: seq<Vector>)
    requires |xs| == |ys|
    ensures |r| == |xs|
  {
    seq(|xs|, i requires 0 <= i < |xs| => Add(xs[i], Scale(dt, ys[i])))
  }

  /** Cell (a, c) once row i of a direct phase has handled every j below `upto`:
      `F[i][j]` holds the pairwise term and `F[j][i]` its negation */
  ghost function RowCell(b: Bodies, cache: seq<Vector>, i: nat, upto: nat, a: nat, c: nat): Vector
    requires b.Valid() && |cache| == b.Count() * b.Count()
    requires i < b.Count() && upto <= b.Count() && a < b.Count() && c < b.Count()
  {
    if a == i && c < upto && c != i then Pairwise(b, i, c)
    else if c == i && a < upto && a != i then Neg(Pairwise(b, i, a))
    else cache[Idx(b.Count(), a, c)]
  }

  /** Every cell of `fs` is as `RowCell` says */
  ghost predicate RowHolds(b: Bodies, cache: seq<Vector>, i: nat, upto: nat, fs: seq<Vector>)
    requires b.Valid() && |cache| == b.Count() * b.Count()
    requires i < b.Count() && upto <= b.Count()
  {
    |fs| == |cache| &&
    forall a: nat, c: nat :: a < b.Count() && c < b.Count() ==> fs[Idx(b.Count(), a, c)] == RowCell(b, cache, i, upto, a, c)
  }

  /** Storing the pair (i, j) extends the row by one */
  lemma RowStep(b: Bodies, cache: seq<Vector>, i: nat, j: nat, fs: seq<Vector>)
    requires b.Valid() && |cache| == b.Count() * b.Count()
    requires i < b.Count() && j < b.Count() && i != j
    requires RowHolds(b, cache, i, j, fs)
    ensures RowHolds(b, cache, i, j + 1,
                     fs[Idx(b.Count(), i, j) := Pairwise(b, i, j)][Idx(b.Count(), j, i) := Neg(Pairwise(b, i, j))])
  {
    var n := b.Count();
    IdxInjective(n, i, j);
    IdxInjective(n, j, i);
  }

  /** Skipping the diagonal cell (i, i) leaves the row as it is */
  lemma RowSkip(b: Bodies, cache: seq<Vector>, i: nat, fs: seq<Vector>)
    requires b.Valid() && |cache| == b.Count() * b.Count() && i < b.Count()
    requires RowHolds(b, cache, i, i, fs)
    ensures RowHolds(b, cache, i, i + 1, fs)
  {
  }

  /** Cell (a, c) once the direct phase of `rank` has handled its rows below `i`:
      of the two rows that may write it, the later one wins */
  ghost function PhaseCell(b: Bodies, cache: seq<Vector>, t: nat, rank: nat, i: nat, a: nat, c: nat): Vector
    requires 1 <= t && rank < t && b.Valid() && |cache| == b.Count() * b.Count()
    requires a < b.Count() && c < b.Count()
  {
    var n, f := b.Count(), Finish(b.Count(), t, rank);
    var byA := a != c && Start(n, t, rank) <= a < i && c < f;
    var byC := a != c && Start(n, t, rank) <= c < i && a < f;
    if byA && (c < a || !byC) then Pairwise(b, a, c)
    else if byC then Neg(Pairwise(b, c, a))
    else cache[Idx(n, a, c)]
  }

  /** Positions and velocities after `k` calls of `simulate` */
  function Trajectory(g: real, sqrt: real -> real, masses: seq<real>, t: nat,
                      positions: seq<Vector>, velocities: seq<Vector>, k: nat): (r: (seq<Vector>, seq<Vector>))
    requires 1 <= t && |masses| == |positions| == |velocities|
    ensures |r.0| == |r.1| == |positions|
    decreases k
  {
    if k == 0 then
      (positions, velocities)
    else
      var (p, v) := Trajectory(g, sqrt, masses, t, positions, velocities, k - 1);
      (Advance(p, v, DT), Advance(v, Accelerations(Bodies(g, sqrt, masses, p), t), DT))
  }

  /** Running `k1` steps and then `k2` more from where they end is running
      `k1 + k2` steps: the time-step loop can be cut anywhere */
  lemma {:induction false} TrajectoryCompose(g: real, sqrt: real -> real, masses: seq<real>, t: nat,
                                             positions: seq<Vector>, velocities: seq<Vector>, k1: nat, k2: nat)
    requires 1 <= t && |masses| == |positions| == |velocities|
    ensures var (p, v) := Trajectory(g, sqrt, masses, t, positions, velocities, k1);
            Trajectory(g, sqrt, masses, t, p, v, k2) == Trajectory(g, sqrt, masses, t, positions, velocities, k1 + k2)
    decreases k2
  {
    if k2 > 0 {
      TrajectoryCompose(g, sqrt, masses, t, positions, velocities, k1, k2 - 1);
    }
  }

  class NBody {
    const bodies: nat
    const threadCount: nat
    const gravConstant: real
    const sqrt: real -> real
    const masses: array<real>
    const positions: array<Vector>
    const velocities: array<Vector>
    const accelerations: array<Vector>
    /** `F_q_k`: cell (i, j) at `Idx(bodies, i, j)` holds the pull of body j on body i */
    const forces: array<Vector>

    ghost predicate Valid()
    {
      1 <= threadCount &&
      masses.Length == bodies && positions.Length == bodies && velocities.Length == bodies &&
      accelerations.Length == bodies && forces.Length == bodies * bodies &&
      positions != velocities && positions != accelerations && positions != forces &&
      velocities != accelerations && velocities != forces && accelerations != forces
    }

    /** What the force step reads */
    ghost function View(): (b: Bodies)
      requires Valid()
      reads masses, positions
      ensures b.Valid() && b.Count() == bodies
    {
      Bodies(gravConstant, sqrt, masses[..], positions[..])
    }

    /** The arrays `initiateSystem` and `main` allocate (lines 68-71, 196-199),
        filled with a configuration read elsewhere; the cache and the
        accelerations start as zeros where the source leaves `malloc`'s contents */
    constructor (g: real, ms: seq<real>, ps: seq<Vector>, vs: seq<Vector>, threads: nat, sqrt: real -> real)
      requires |ms| == |ps| == |vs| && 1 <= threads
      ensures Valid() && bodies == |ms| && threadCount == threads
      ensures gravConstant == g && this.sqrt == sqrt
      ensures masses[..] == ms && positions[..] == ps && velocities[..] == vs
      ensures fresh(masses) && fresh(positions) && fresh(velocities) && fresh(accelerations) && fresh(forces)
    {
      bodies, threadCount, gravConstant, this.sqrt := |ms|, threads, g, sqrt;
      masses := new real[|ms|](i requires 0 <= i < |ms| => ms[i]);
      positions := new Vector[|ms|](i requires 0 <= i < |ms| => ps[i]);
      velocities := new Vector[|ms|](i requires 0 <= i < |ms| => vs[i]);
      accelerations := new Vector[|ms|](_ => Zero);
      forces := new Vector[|ms| * |ms|](_ => Zero);
    }

    /** The body of the inner loop of the direct phase for i != j (lines 116-128):
        the pairwise term, with the cubed distance floored at `eps`, goes to
        `F[i][j]` and its negation to `F[j][i]`, no other cell changes, and
        `F[i][j]` is added to the acceleration of body i */
    method PairStep(i: nat, j: nat, ghost b: Bodies)
      requires Valid() && i < bodies && j < bodies && i != j
      requires b.Valid() && b.Count() == bodies && b.g == gravConstant && b.sqrt == sqrt
      requires b.masses[j] == masses[j] && b.positions[i] == positions[i] && b.positions[j] == positions[j]
      modifies accelerations, forces
      ensures forces[..] == old(forces[..])[Idx(bodies, i, j) := Pairwise(b, i, j)]
                                          [Idx(bodies, j, i) := Neg(Pairwise(b, i, j))]
      ensures accelerations[i] == Add(old(accelerations[i]), Pairwise(b, i, j))
      ensures forall k :: 0 <= k < bodies && k != i ==> accelerations[k] == old(accelerations[k])
    {
      var dist := Cube(Mod(Subtract(positions[i], positions[j]), sqrt));
      assert dist == DistCubed(b, i, j);
      // `i * bodies + j` and `j * bodies + i`
      var ij, ji := Idx(bodies, i, j), Idx(bodies, j, i);
      IdxInjective(bodies, i, j);
      if dist >= Eps {
        forces[ij] := Pull(gravConstant, masses[j], dist, positions[i], positions[j]);
        assert forces[ij] == Pairwise(b, i, j);
        forces[ji] := Scale(-1.0, forces[ij]);
      } else {
        forces[ij] := Pull(gravConstant, masses[j], Eps, positions[i], positions[j]);
        assert forces[ij] == Pairwise(b, i, j);
        forces[ji] := Scale(-1.0, forces[ij]);
      }
      accelerations[i] := Add(accelerations[i], forces[ij]);
    }

    /** One pass of the outer loop of the direct phase (lines 110-131): reset the
        acceleration of body i, then for every j below `finish` but i store the
        pairwise terms and add `F[i][j]` to the acceleration */
    method DirectRow(i: nat, finish: nat)
      requires Valid() && i < finish <= bodies
      modifies accelerations, forces
      ensures accelerations[i] == PairSum(View(), i, 0, finish)
      ensures forall k :: 0 <= k < bodies && k != i ==> accelerations[k] == old(accelerations[k])
      ensures RowHolds(View(), old(forces[..]), i, finish, forces[..])
    {
      ghost var b, cache := View(), forces[..];
      accelerations[i] := Zero;
      var j := 0;
      while j < finish
        invariant j <= finish
        invariant accelerations[i] == PairSum(b, i, 0, j)
        invariant forall k :: 0 <= k < bodies && k != i ==> accelerations[k] == old(accelerations[k])
        invariant RowHolds(b, cache, i, j, forces[..])
      {
        if i != j {
          RowStep(b, cache, i, j, forces[..]);
          PairStep(i, j, b);
        } else {
          RowSkip(b, cache, i, forces[..]);
        }
        j := j + 1;
      }
    }

    /** The part of `computeAccelerations(rank)` before the barrier (lines 103-131) */
    method DirectPhase(rank: nat)
      requires Valid() && rank < threadCount
      modifies accelerations, forces
      ensures forall k :: 0 <= k < bodies ==> (accelerations[k] ==
                if InRange(bodies, threadCount, rank, k)
                then PairSum(View(), k, 0, Finish(bodies, threadCount, rank))
                else old(accelerations[k]))
      ensures forall a: nat, c: nat :: a < bodies && c < bodies ==> (forces[Idx(bodies, a, c)] ==
                if WrittenBy(bodies, threadCount, rank, a, c)
                then FinalForce(View(), a, c)
                else old(forces[Idx(bodies, a, c)]))
    {
      var localN := bodies / threadCount;
      var localStart := rank * localN;
      var localFinish := localStart + localN;
      if rank == threadCount - 1 {
        localFinish := bodies;
      }
      assert localStart == Start(bodies, threadCount, rank);
      assert localFinish == Finish(bodies, threadCount, rank);
      var i := localStart;
      while i < localFinish
        invariant localStart <= i <= localFinish
        invariant forall k :: 0 <= k < bodies ==> (accelerations[k] ==
                    if localStart <= k < i then PairSum(View(), k, 0, localFinish) else old(accelerations[k]))
        invariant forall a: nat, c: nat :: a < bodies && c < bodies ==>
                    forces[Idx(bodies, a, c)] == PhaseCell(View(), old(forces[..]), threadCount, rank, i, a, c)
      {
        DirectRow(i, localFinish);
        i := i + 1;
      }
    }

    /** One pass of the outer loop of the reduction phase (lines 134-143): add
        `F[i][j]` for every j from `finish` on */
    method ReduceRow(i: nat, finish: nat)
      requires Valid() && i < finish <= bodies
      modifies accelerations
      ensures accelerations[i] == Add(old(accelerations[i]), CacheSum(forces[..], bodies, i, finish, bodies))
      ensures forall k :: 0 <= k < bodies && k != i ==> accelerations[k] == old(accelerations[k])
    {
      AddZero(accelerations[i]);
      var j := finish;
      while j < bodies
        invariant finish <= j <= bodies
        invariant accelerations[i] == Add(old(accelerations[i]), CacheSum(forces[..], bodies, i, finish, j))
        invariant forall k :: 0 <= k < bodies && k != i ==> accelerations[k] == old(accelerations[k])
      {
        if i != j {
          accelerations[i] := Add(accelerations[i], forces[Idx(bodies, i, j)]);
        }
        j := j + 1;
      }
    }

    /** The part of `computeAccelerations(rank)` after the barrier (lines 133-144),
        which the last rank skips: its range ends at `bodies`, so it would add nothing */
    method ReductionPhase(rank: nat)
      requires Valid() && rank < threadCount
      modifies accelerations
      ensures forall k :: 0 <= k < bodies ==> (accelerations[k] ==
                if InRange(bodies, threadCount, rank, k)
                then Add(old(accelerations[k]), CacheSum(forces[..], bodies, k, Finish(bodies, threadCount, rank), bodies))
                else old(accelerations[k]))
    {
      var localN := bodies / threadCount;
      var localStart := rank * localN;
      var localFinish := localStart + localN;
      if rank == threadCount - 1 {
        localFinish := bodies;
      }
      assert localStart == Start(bodies, threadCount, rank);
      assert localFinish == Finish(bodies, threadCount, rank);
      if rank != threadCount - 1 {
        var i := localStart;
        while i < localFinish
          invariant localStart <= i <= localFinish
          invariant forall k :: 0 <= k < bodies ==> (accelerations[k] ==
                      if localStart <= k < i
                      then Add(old(accelerations[k]), CacheSum(forces[..], bodies, k, localFinish, bodies))
                      else old(accelerations[k]))
        {
          ReduceRow(i, localFinish);
          i := i + 1;
        }
      } else {
        forall k | 0 <= k < bodies
          ensures Add(accelerations[k], CacheSum(forces[..], bodies, k, bodies, bodies)) == accelerations[k]
        {
          AddZero(accelerations[k]);
        }
      }
    }

    /** Every rank's direct phase, up to the barrier (line 132): each body holds the
        pairwise sum below its rank's finish, and every cell off the diagonal holds
        its final term */
    method DirectPhases()
      requires Valid()
      modifies accelerations, forces
      ensures forall k :: 0 <= k < bodies ==>
                accelerations[k] == PairSum(View(), k, 0, Finish(bodies, threadCount, Owner(bodies, threadCount, k)))
      ensures forall a: nat, c: nat :: a < bodies && c < bodies ==> (forces[Idx(bodies, a, c)] ==
                if a != c then FinalForce(View(), a, c) else old(forces[Idx(bodies, a, c)]))
    {
      var rank := 0;
      while rank < threadCount
        invariant rank <= threadCount
        invariant forall k :: 0 <= k < bodies ==> (accelerations[k] ==
                    if Owner(bodies, threadCount, k) < rank
                    then PairSum(View(), k, 0, Finish(bodies, threadCount, Owner(bodies, threadCount, k)))
                    else old(accelerations[k]))
        invariant forall a: nat, c: nat :: a < bodies && c < bodies ==> (forces[Idx(bodies, a, c)] ==
                    if a != c && Owner(bodies, threadCount, Max(a, c)) < rank
                    then FinalForce(View(), a, c)
                    else old(forces[Idx(bodies, a, c)]))
      {
        DirectPhase(rank);
        forall a: nat, c: nat | a < bodies && c < bodies
          ensures WrittenBy(bodies, threadCount, rank, a, c) <==> a != c && rank == Owner(bodies, threadCount, Max(a, c))
        {
          WrittenByOwner(bodies, threadCount, rank, a, c);
        }
        forall k | 0 <= k < bodies
          ensures InRange(bodies, threadCount, rank, k) <==> rank == Owner(bodies, threadCount, k)
        {
          OwnerUnique(bodies, threadCount, rank, k);
        }
        rank := rank + 1;
      }
    }

    /** Every rank's reduction phase, once all have passed the barrier: on a cache
        whose cells off the diagonal hold their final terms, each body adds the
        mirrored terms past its rank's finish and so ends with its `StepAcceleration` */
    method ReductionPhases()
      requires Valid()
      requires forall k :: 0 <= k < bodies ==>
                 accelerations[k] == PairSum(View(), k, 0, Finish(bodies, threadCount, Owner(bodies, threadCount, k)))
      requires forall a: nat, c: nat :: a < bodies && c < bodies && a != c ==>
                 forces[Idx(bodies, a, c)] == FinalForce(View(), a, c)
      modifies accelerations
      ensures forall k :: 0 <= k < bodies ==> accelerations[k] == StepAcceleration(View(), threadCount, k)
    {
      ghost var cache := forces[..];
      var rank := 0;
      while rank < threadCount
        invariant rank <= threadCount
        invariant forall k :: 0 <= k < bodies ==> (accelerations[k] ==
                    if Owner(bodies, threadCount, k) < rank
                    then StepAcceleration(View(), threadCount, k)
                    else PairSum(View(), k, 0, Finish(bodies, threadCount, Owner(bodies, threadCount, k))))
      {
        ReductionPhase(rank);
        forall k | 0 <= k < bodies && InRange(bodies, threadCount, rank, k)
          ensures rank == Owner(bodies, threadCount, k)
          ensures CacheSum(cache, bodies, k, Finish(bodies, threadCount, rank), bodies) ==
                  CrossSum(View(), k, Finish(bodies, threadCount, rank), bodies)
        {
          OwnerUnique(bodies, threadCount, rank, k);
          CacheSumOfFinalForces(cache, View(), k, Finish(bodies, threadCount, rank), bodies);
        }
        forall k | 0 <= k < bodies && !InRange(bodies, threadCount, rank, k)
          ensures rank != Owner(bodies, threadCount, k)
        {
          OwnerUnique(bodies, threadCount, rank, k);
        }
        rank := rank + 1;
      }
    }

    /** The thread work of one `simulate` call (lines 167-174): every rank's direct
        phase, then, once all have reached the barrier (line 132), every rank's
        reduction phase */
    method ComputeAccelerations()
      requires Valid()
      modifies accelerations, forces
      ensures forall k :: 0 <= k < bodies ==> accelerations[k] == StepAcceleration(View(), threadCount, k)
      ensures forall a: nat, c: nat :: a < bodies && c < bodies ==> (forces[Idx(bodies, a, c)] ==
                if a != c then FinalForce(View(), a, c) else old(forces[Idx(bodies, a, c)]))
    {
      DirectPhases();
      ReductionPhases();
    }

    /** `computeVelocities` (lines 84-90) */
    method ComputeVelocities()
      requires Valid()
      modifies velocities
      ensures velocities[..] == Advance(old(velocities[..]), accelerations[..], DT)
    {
      for i := 0 to bodies
        invariant forall k :: 0 <= k < i ==> velocities[k] == Add(old(velocities[k]), Scale(DT, accelerations[k]))
        invariant forall k :: i <= k < bodies ==> velocities[k] == old(velocities[k])
      {
        velocities[i] := Add(velocities[i], Scale(DT, accelerations[i]));
      }
    }

    /** `computePositions` (lines 93-99) */
    method ComputePositions()
      requires Valid()
      modifies positions
      ensures positions[..] == Advance(old(positions[..]), velocities[..], DT)
    {
      for i := 0 to bodies
        invariant forall k :: 0 <= k < i ==> positions[k] == Add(old(positions[k]), Scale(DT, velocities[k]))
        invariant forall k :: i <= k < bodies ==> positions[k] == old(positions[k])
      {
        positions[i] := Add(positions[i], Scale(DT, velocities[i]));
      }
    }

    /** `simulate` (lines 165-177): the force step, then positions from the old
        velocities, then the velocities */
    method Simulate()
      requires Valid()
      modifies positions, velocities, accelerations, forces
      ensures accelerations[..] == Accelerations(old(View()), threadCount)
      ensures positions[..] == Advance(old(positions[..]), old(velocities[..]), DT)
      ensures velocities[..] == Advance(old(velocities[..]), accelerations[..], DT)
      ensures forall a: nat, c: nat :: a < bodies && c < bodies ==> (forces[Idx(bodies, a, c)] ==
                if a != c then FinalForce(old(View()), a, c) else old(forces[Idx(bodies, a, c)]))
    {
      ComputeAccelerations();
      ComputePositions();
      ComputeVelocities();
    }

    /** The time-step loop of `main` (lines 212-225), without its printing */
    method Run(timeSteps: nat)
      requires Valid()
      modifies positions, velocities, accelerations, forces
      ensures (positions[..], velocities[..]) ==
              Trajectory(gravConstant, sqrt, masses[..], threadCount, old(positions[..]), old(velocities[..]), timeSteps)
    {
      for step := 0 to timeSteps
        invariant (positions[..], velocities[..]) ==
                  Trajectory(gravConstant, sqrt, masses[..], threadCount, old(positions[..]), old(velocities[..]), step)
      {
        Simulate();
      }
    }
  }
}
