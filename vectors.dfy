/** Two-dimensional vectors and the helpers of main_parallel.c:22-59.
    The source computes in `double`; here every operation is exact over `real`,
    and the square root of the C library is a parameter `sqrt`. */
module Vectors {

  datatype Vector = Vector(x: real, y: real)

  const Zero: Vector := Vector(0.0, 0.0)

  /** `addVectors` */
  function Add(a: Vector, b: Vector): Vector
  {
    Vector(a.x + b.x, a.y + b.y)
  }

  /** `scaleVector(b, a)`: the scalar comes first, as in the source */
  function Scale(s: real, a: Vector): Vector
  {
    Vector(s * a.x, s * a.y)
  }

  /** `subtractVectors` */
  function Subtract(a: Vector, b: Vector): Vector
  {
    Vector(a.x - b.x, a.y - b.y)
  }

  /** `scaleVector(-1, a)`, the negation the direct phase stores in the mirrored cache cell */
  function Neg(a: Vector): Vector
  {
    Scale(-1.0, a)
  }

  function SquaredLength(a: Vector): real
  {
    a.x * a.x + a.y * a.y
  }

  /** `mod`: the Euclidean length, given the square root to use */
  function Mod(a: Vector, sqrt: real -> real): real
  {
    sqrt(SquaredLength(a))
  }

  /** `pow(d, 3)` */
  function Cube(d: real): real
  {
    d * d * d
  }

  /** `f(j)` added up over `lo <= j < hi` in increasing order of `j`, leaving out
      `j == skip`: the shape of both inner loops of `computeAccelerations`, whose
      guard `i != j` skips the body's own index */
  function Sum(f: nat -> Vector, skip: nat, lo: nat, hi: nat): Vector
    decreases hi
  {
    if hi <= lo then Zero
    else if hi - 1 == skip then Sum(f, skip, lo, hi - 1)
    else Add(Sum(f, skip, lo, hi - 1), f(hi - 1))
  }

  lemma AddZero(a: Vector)
    ensures Add(a, Zero) == a && Add(Zero, a) == a
  {
  }

  lemma AddAssociates(a: Vector, b: Vector, c: Vector)
    ensures Add(Add(a, b), c) == Add(a, Add(b, c))
  {
  }

  lemma ZeroHasNoLength(sqrt: real -> real)
    requires sqrt(0.0) == 0.0
    ensures Cube(Mod(Zero, sqrt)) == 0.0
  {
    assert SquaredLength(Zero) == 0.0;
  }

  lemma NegNeg(a: Vector)
    ensures Neg(Neg(a)) == a
  {
  }

  /** Negating a scaled difference swaps its operands */
  lemma NegScaledDifference(s: real, a: Vector, b: Vector)
    ensures Neg(Scale(s, Subtract(a, b))) == Scale(s, Subtract(b, a))
  {
    assert -1.0 * (s * (a.x - b.x)) == s * (b.x - a.x);
    assert -1.0 * (s * (a.y - b.y)) == s * (b.y - a.y);
  }

  /** The length of a difference does not depend on its direction */
  lemma ModOfDifferenceSymmetric(a: Vector, b: Vector, sqrt: real -> real)
    ensures Mod(Subtract(a, b), sqrt) == Mod(Subtract(b, a), sqrt)
  {
    var d, e := Subtract(a, b), Subtract(b, a);
    assert d.x * d.x == e.x * e.x by {
      assert e.x == -d.x;
    }
    assert d.y * d.y == e.y * e.y by {
      assert e.y == -d.y;
    }
    assert SquaredLength(d) == SquaredLength(e);
  }

  /** A non-zero vector determines the scalar it was scaled by */
  lemma ScaleCancels(s: real, r: real, a: Vector)
    requires a != Zero && Scale(s, a) == Scale(r, a)
    ensures s == r
  {
    if a.x != 0.0 {
      assert (s - r) * a.x == 0.0;
    } else {
      assert (s - r) * a.y == 0.0;
    }
  }

  /** Summing in two stretches gives the same as summing at once */
  lemma {:induction false} SumSplit(f: nat -> Vector, skip: nat, lo: nat, mid: nat, hi: nat)
    requires lo <= mid <= hi
    ensures Sum(f, skip, lo, hi) == Add(Sum(f, skip, lo, mid), Sum(f, skip, mid, hi))
    decreases hi
  {
    if hi == mid {
      AddZero(Sum(f, skip, lo, mid));
    } else {
      SumSplit(f, skip, lo, mid, hi - 1);
      if hi - 1 != skip {
        AddAssociates(Sum(f, skip, lo, mid), Sum(f, skip, mid, hi - 1), f(hi - 1));
      }
    }
  }

  /** Two term functions that agree on every index summed give the same sum */
  lemma {:induction false} SumCongruent(f: nat -> Vector, g: nat -> Vector, skip: nat, lo: nat, hi: nat)
    requires forall j: nat :: lo <= j < hi && j != skip ==> f(j) == g(j)
    ensures Sum(f, skip, lo, hi) == Sum(g, skip, lo, hi)
    decreases hi
  {
    if lo < hi {
      SumCongruent(f, g, skip, lo, hi - 1);
    }
  }
}
