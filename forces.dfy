/** What one force step of `computeAccelerations` (main_parallel.c:101-146)
    computes, as functions of the masses and positions it reads: the pairwise
    term, the force cache `F_q_k` once every rank has run its direct phase, and
    the acceleration every body ends up with once the reduction phase is over. */
module Forces {
  import opened Vectors
  import opened Partition

  /** `eps` (main_parallel.c:10): the floor on the cubed distance */
  const Eps: real := 0.0001

  /** The divisor of a pairwise term (lines 119-127): the cubed distance, or
      `Eps` when that is smaller, so never below `Eps` and never zero */
  function Divisor(dist: real): (d: real)
    ensures d >= Eps && d >= dist
    ensures d == dist || d == Eps
  {
    if dist >= Eps then dist else Eps
  }

  /** What the force step reads: the gravitational constant, the square root in
      use, and each body's mass and position */
  datatype Bodies = Bodies(g: real, sqrt: real -> real, masses: seq<real>, positions: seq<Vector>)
  {
    predicate Valid()
    {
      |masses| == |positions|
    }

    function Count(): nat
    {
      |positions|
    }
  }

  /** `pow(mod(positions[i] - positions[j]), 3)` (line 118) */
  function DistCubed(b: Bodies, i: nat, j: nat): real
    requires b.Valid() && i < b.Count() && j < b.Count()
  {
    Cube(Mod(Subtract(b.positions[i], b.positions[j]), b.sqrt))
  }

  /** The expression of lines 121 and 125: `GravConstant * m / d` times the vector
      from `pi` to `pj` */
  function Pull(g: real, m: real, d: real, pi: Vector, pj: Vector): Vector
    requires d != 0.0
  {
    Scale(g * m / d, Subtract(pj, pi))
  }

  /** The term the direct phase stores as `F[i][j]` (lines 118-127): `Pull` with
      the mass of body j and the cubed distance floored at `Eps` */
  function Pairwise(b: Bodies, i: nat, j: nat): Vector
    requires b.Valid() && i < b.Count() && j < b.Count()
  {
    Pull(b.g, b.masses[j], Divisor(DistCubed(b, i, j)), b.positions[i], b.positions[j])
  }

  /** Cell (i, j) of the flat force cache: `F_q_k[i * bodies + j]`, which lies
      inside the `bodies * bodies` cells allocated at line 199 */
  function Idx(n: nat, i: nat, j: nat): (k: nat)
    requires i < n && j < n
    ensures k < n * n
  {
    MulMonotone(i + 1, n, n);
    i * n + j
  }

  /** The cell (a, c) once every rank's direct phase is over: the row of the
      higher-indexed body was written last, as `F[i][j]` (line 121 or 125) when
      a > c and as the mirror `F[j][i]` (line 122 or 126) when a < c */
  function FinalForce(b: Bodies, a: nat, c: nat): Vector
    requires b.Valid() && a < b.Count() && c < b.Count()
  {
    if a > c then Pairwise(b, a, c) else Neg(Pairwise(b, c, a))
  }

  /** Cell (a, c) is written by the direct phase of `rank`: as `F[i][j]` for an
      i of its own and j below its finish, or as the mirror `F[j][i]` (lines 110-127) */
  predicate WrittenBy(n: nat, t: nat, rank: nat, a: nat, c: nat)
    requires 1 <= t && rank < t
  {
    a != c &&
    ((InRange(n, t, rank, a) && c < Finish(n, t, rank)) ||
     (InRange(n, t, rank, c) && a < Finish(n, t, rank)))
  }

  function Max(a: nat, c: nat): nat
  {
    if a < c then c else a
  }

  /** The term body j adds to body i in the direct phase (line 128) */
  function PairTerms(b: Bodies, i: nat): nat -> Vector
    requires b.Valid() && i < b.Count()
  {
    (j: nat) => if j < b.Count() then Pairwise(b, i, j) else Zero
  }

  /** The term the reduction phase finds for body j in row i of a cache filled
      by the direct phases: the mirror of body j's own pairwise term */
  function MirrorTerms(b: Bodies, i: nat): nat -> Vector
    requires b.Valid() && i < b.Count()
  {
    (j: nat) => if j < b.Count() then Neg(Pairwise(b, j, i)) else Zero
  }

  /** The cache cell `F[i][j]` the reduction loop adds (line 140) */
  function CacheTerms(cache: seq<Vector>, n: nat, i: nat): nat -> Vector
    requires |cache| == n * n && i < n
  {
    (j: nat) => if j < n then cache[Idx(n, i, j)] else Zero
  }

  /** Sum of `Pairwise(b, i, j)` over `lo <= j < hi`, `j != i`, added up in the
      order of the loop at lines 114-130 */
  function PairSum(b: Bodies, i: nat, lo: nat, hi: nat): Vector
    requires b.Valid() && i < b.Count() && hi <= b.Count()
  {
    Sum(PairTerms(b, i), i, lo, hi)
  }

  /** Sum of the mirrored terms `Neg(Pairwise(b, j, i))` over `lo <= j < hi`,
      `j != i`: what the reduction phase finds in row i of the cache */
  function CrossSum(b: Bodies, i: nat, lo: nat, hi: nat): Vector
    requires b.Valid() && i < b.Count() && hi <= b.Count()
  {
    Sum(MirrorTerms(b, i), i, lo, hi)
  }

  /** Sum of the cache cells `F[i][j]` over `lo <= j < hi`, `j != i`, in the order
      of the reduction loop (lines 136-142) */
  function CacheSum(cache: seq<Vector>, n: nat, i: nat, lo: nat, hi: nat): Vector
    requires |cache| == n * n && i < n && hi <= n
  {
    Sum(CacheTerms(cache, n, i), i, lo, hi)
  }

  /** Body i's acceleration after both phases with `t` threads: its rank adds the
      pairwise terms of every j below the rank's finish, then reads the mirrored
      terms of every later j from the cache */
  function StepAcceleration(b: Bodies, t: nat, i: nat): Vector
    requires 1 <= t && b.Valid() && i < b.Count()
  {
    var f := Finish(b.Count(), t, Owner(b.Count(), t, i));
    Add(PairSum(b, i, 0, f), CrossSum(b, i, f, b.Count()))
  }

  /** The accelerations of all bodies after one force step */
  function Accelerations(b: Bodies, t: nat): (acc: seq<Vector>)
    requires 1 <= t && b.Valid()
    ensures |acc| == b.Count()
  {
    seq(b.Count(), i requires 0 <= i < b.Count() => StepAcceleration(b, t, i))
  }

  // ---------------------------------------------------------------------------
  // The force cache

  lemma IdxUnique(n: nat, a: nat, c: nat, i: nat, j: nat)
    requires a < n && c < n && i < n && j < n && Idx(n, a, c) == Idx(n, i, j)
    ensures a == i && c == j
  {
    if a < i {
      assert (a + 1) * n == a * n + n;
      MulMonotone(a + 1, i, n);
    } else if i < a {
      assert (i + 1) * n == i * n + n;
      MulMonotone(i + 1, a, n);
    }
  }

  /** Distinct cells of the n-by-n cache have distinct flat indices */
  lemma IdxInjective(n: nat, i: nat, j: nat)
    requires i < n && j < n
    ensures forall a: nat, c: nat :: a < n && c < n ==> (Idx(n, a, c) == Idx(n, i, j) <==> a == i && c == j)
  {
    forall a: nat, c: nat | a < n && c < n
      ensures Idx(n, a, c) == Idx(n, i, j) <==> a == i && c == j
    {
      if Idx(n, a, c) == Idx(n, i, j) {
        IdxUnique(n, a, c, i, j);
      }
    }
  }

  /** Which rank writes a cell: the owner of the higher of its two bodies, and
      never one on the diagonal */
  lemma WrittenByOwner(n: nat, t: nat, rank: nat, a: nat, c: nat)
    requires 1 <= t && rank < t && a < n && c < n
    ensures WrittenBy(n, t, rank, a, c) <==> a != c && rank == Owner(n, t, Max(a, c))
  {
    OwnerUnique(n, t, rank, a);
    OwnerUnique(n, t, rank, c);
  }

  /** No two ranks write the same cell, so running the direct phases in any
      order, or at once, leaves the same cache */
  lemma WriterUnique(n: nat, t: nat, r1: nat, r2: nat, a: nat, c: nat)
    requires 1 <= t && r1 < t && r2 < t && a < n && c < n
    requires WrittenBy(n, t, r1, a, c) && WrittenBy(n, t, r2, a, c)
    ensures r1 == r2
  {
    WrittenByOwner(n, t, r1, a, c);
    WrittenByOwner(n, t, r2, a, c);
  }

  /** Every cell the reduction phase of `rank` reads was written by a later rank,
      which is why it waits at the barrier (line 132) */
  lemma ReductionReadsLaterRank(n: nat, t: nat, rank: nat, i: nat, j: nat)
    requires 1 <= t && rank < t && InRange(n, t, rank, i) && Finish(n, t, rank) <= j < n
    ensures i < j && rank < Owner(n, t, j) && WrittenBy(n, t, Owner(n, t, j), i, j)
  {
    var o := Owner(n, t, j);
    if o <= rank {
      if o < rank {
        Ordered(n, t, o, rank);
      }
      assert false;
    }
  }

  /** Once all direct phases are over, every pair of distinct cells is antisymmetric */
  lemma FinalForceAntisymmetric(b: Bodies, a: nat, c: nat)
    requires b.Valid() && a < b.Count() && c < b.Count() && a != c
    ensures FinalForce(b, c, a) == Neg(FinalForce(b, a, c))
  {
    if a > c {
      NegNeg(Pairwise(b, a, c));
    }
  }

  // ---------------------------------------------------------------------------
  // The pairwise term

  /** Swapping the two bodies does not change the divisor */
  lemma DivisorSymmetric(b: Bodies, i: nat, j: nat)
    requires b.Valid() && i < b.Count() && j < b.Count()
    ensures Divisor(DistCubed(b, i, j)) == Divisor(DistCubed(b, j, i))
  {
    ModOfDifferenceSymmetric(b.positions[i], b.positions[j], b.sqrt);
  }

  /** The mirrored term `F[j][i]` negated is `Pairwise(b, i, j)` with the mass of
      body i in place of the mass of body j */
  lemma MirroredTerm(b: Bodies, i: nat, j: nat)
    requires b.Valid() && i < b.Count() && j < b.Count()
    ensures Neg(Pairwise(b, j, i)) ==
            Pull(b.g, b.masses[i], Divisor(DistCubed(b, i, j)), b.positions[i], b.positions[j])
  {
    DivisorSymmetric(b, i, j);
    NegScaledDifference(b.g * b.masses[i] / Divisor(DistCubed(b, i, j)), b.positions[i], b.positions[j]);
  }

  /** Newton's third law holds between bodies of equal mass */
  lemma EqualMassesMirror(b: Bodies, i: nat, j: nat)
    requires b.Valid() && i < b.Count() && j < b.Count() && b.masses[i] == b.masses[j]
    ensures Neg(Pairwise(b, j, i)) == Pairwise(b, i, j)
  {
    MirroredTerm(b, i, j);
  }

  /** Two bodies at the same place pull with the `Eps` floor, not a zero divisor */
  lemma CoincidentBodiesUseFloor(b: Bodies, i: nat, j: nat)
    requires b.Valid() && i < b.Count() && j < b.Count()
    requires b.positions[i] == b.positions[j] && b.sqrt(0.0) == 0.0
    ensures Divisor(DistCubed(b, i, j)) == Eps
  {
    assert Subtract(b.positions[i], b.positions[j]) == Zero;
    ZeroHasNoLength(b.sqrt);
  }

  // ---------------------------------------------------------------------------
  // The accumulated accelerations

  /** Summing the pairwise terms in two stretches gives the same as summing at once */
  lemma PairSumSplit(b: Bodies, i: nat, lo: nat, mid: nat, hi: nat)
    requires b.Valid() && i < b.Count() && lo <= mid <= hi <= b.Count()
    ensures PairSum(b, i, lo, hi) == Add(PairSum(b, i, lo, mid), PairSum(b, i, mid, hi))
  {
    SumSplit(PairTerms(b, i), i, lo, mid, hi);
  }

  /** With equal masses the mirrored terms are the pairwise terms themselves */
  lemma CrossSumOfEqualMasses(b: Bodies, i: nat, lo: nat, hi: nat)
    requires b.Valid() && i < b.Count() && hi <= b.Count()
    requires forall j :: 0 <= j < b.Count() ==> b.masses[j] == b.masses[i]
    ensures CrossSum(b, i, lo, hi) == PairSum(b, i, lo, hi)
  {
    forall j: nat | lo <= j < hi && j != i
      ensures MirrorTerms(b, i)(j) == PairTerms(b, i)(j)
    {
      EqualMassesMirror(b, i, j);
    }
    SumCongruent(MirrorTerms(b, i), PairTerms(b, i), i, lo, hi);
  }

  /** What the reduction loop reads from a cache filled by the direct phases
      is the sum of mirrored terms */
  lemma CacheSumOfFinalForces(cache: seq<Vector>, b: Bodies, i: nat, lo: nat, hi: nat)
    requires b.Valid() && |cache| == b.Count() * b.Count() && i < lo && i < b.Count() && hi <= b.Count()
    requires forall j: nat :: lo <= j < hi ==> cache[Idx(b.Count(), i, j)] == FinalForce(b, i, j)
    ensures CacheSum(cache, b.Count(), i, lo, hi) == CrossSum(b, i, lo, hi)
  {
    var n := b.Count();
    forall j: nat | lo <= j < hi && j != i
      ensures CacheTerms(cache, n, i)(j) == MirrorTerms(b, i)(j)
    {
      assert cache[Idx(n, i, j)] == FinalForce(b, i, j);
    }
    SumCongruent(CacheTerms(cache, n, i), MirrorTerms(b, i), i, lo, hi);
  }

  /** With one thread the step computes the plain sum over all other bodies */
  lemma SingleThreadIsPairwiseSum(b: Bodies, i: nat)
    requires b.Valid() && i < b.Count()
    ensures StepAcceleration(b, 1, i) == PairSum(b, i, 0, b.Count())
  {
    AddZero(PairSum(b, i, 0, b.Count()));
  }

  /** With equal masses every thread count gives the plain sum over all other bodies */
  lemma EqualMassesIsPairwiseSum(b: Bodies, t: nat, i: nat)
    requires 1 <= t && b.Valid() && i < b.Count()
    requires forall j :: 0 <= j < b.Count() ==> b.masses[j] == b.masses[i]
    ensures StepAcceleration(b, t, i) == PairSum(b, i, 0, b.Count())
  {
    var f := Finish(b.Count(), t, Owner(b.Count(), t, i));
    CrossSumOfEqualMasses(b, i, f, b.Count());
    PairSumSplit(b, i, 0, f, b.Count());
  }

  /** The pull between two distinct places depends on the mass it is scaled by */
  lemma PullDependsOnMass(g: real, m: real, k: real, d: real, pi: Vector, pj: Vector)
    requires g != 0.0 && d != 0.0 && m != k && pi != pj
    ensures Pull(g, m, d, pi, pj) != Pull(g, k, d, pi, pj)
  {
    if Pull(g, m, d, pi, pj) == Pull(g, k, d, pi, pj) {
      assert Subtract(pj, pi) != Zero;
      ScaleCancels(g * m / d, g * k / d, Subtract(pj, pi));
      assert false;
    }
  }

  /** With unequal masses the result depends on the thread count: of two bodies,
      body 0 is pulled with the mass of body 1 when one thread owns both, but
      with its own mass when each has a thread of its own */
  lemma ThreadCountChangesResult(b: Bodies)
    requires b.Valid() && b.Count() == 2 && b.g != 0.0
    requires b.masses[0] != b.masses[1] && b.positions[0] != b.positions[1]
    ensures StepAcceleration(b, 1, 0) == Pairwise(b, 0, 1)
    ensures StepAcceleration(b, 2, 0) ==
            Pull(b.g, b.masses[0], Divisor(DistCubed(b, 0, 1)), b.positions[0], b.positions[1])
    ensures StepAcceleration(b, 1, 0) != StepAcceleration(b, 2, 0)
  {
    assert Owner(2, 1, 0) == 0 && Finish(2, 1, 0) == 2;
    assert Owner(2, 2, 0) == 0 && Finish(2, 2, 0) == 1;
    AddZero(Pairwise(b, 0, 1));
    MirroredTerm(b, 0, 1);
    AddZero(Neg(Pairwise(b, 1, 0)));
    PullDependsOnMass(b.g, b.masses[1], b.masses[0], Divisor(DistCubed(b, 0, 1)), b.positions[0], b.positions[1]);
  }

  /** Two bodies of equal mass are pulled towards each other equally hard,
      whatever the thread count */
  lemma TwoEqualBodiesOpposite(b: Bodies, t: nat)
    requires 1 <= t && b.Valid() && b.Count() == 2 && b.masses[0] == b.masses[1]
    ensures StepAcceleration(b, t, 1) == Neg(StepAcceleration(b, t, 0))
  {
    EqualMassesIsPairwiseSum(b, t, 0);
    EqualMassesIsPairwiseSum(b, t, 1);
    EqualMassesMirror(b, 1, 0);
    AddZero(Pairwise(b, 0, 1));
    AddZero(Pairwise(b, 1, 0));
    assert PairSum(b, 0, 0, 2) == Pairwise(b, 0, 1);
    assert PairSum(b, 1, 0, 2) == Pairwise(b, 1, 0);
  }

  /** A lone body feels no force */
  lemma LoneBodyFeelsNoForce(b: Bodies, t: nat)
    requires 1 <= t && b.Valid() && b.Count() == 1
    ensures StepAcceleration(b, t, 0) == Zero
  {
    var f := Finish(1, t, Owner(1, t, 0));
    assert PairSum(b, 0, 0, f) == Zero;
    assert CrossSum(b, 0, f, 1) == Zero;
  }
}
