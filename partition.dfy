/** How `computeAccelerations` splits the bodies `0 .. n-1` among `t` threads
    (main_parallel.c:103-108): rank `r` owns `[Start(n, t, r), Finish(n, t, r))`,
    every rank gets `n / t` bodies and the last one also takes the remainder.
    Both operands are non-negative, so C's truncating `/` agrees with Dafny's. */
module Partition {

  /** `local_n`: the share of every rank but the last */
  function Share(n: nat, t: nat): nat
    requires 1 <= t
  {
    n / t
  }

  /** `local_start` */
  function Start(n: nat, t: nat, rank: nat): nat
    requires 1 <= t && rank < t
  {
    rank * Share(n, t)
  }

  /** `local_finish`: one share past the start, or `n` for the last rank */
  function Finish(n: nat, t: nat, rank: nat): (f: nat)
    requires 1 <= t && rank < t
    ensures Start(n, t, rank) <= f <= n
  {
    SharesFit(n, t, rank + 1);
    if rank == t - 1 then n else Start(n, t, rank) + Share(n, t)
  }

  predicate InRange(n: nat, t: nat, rank: nat, i: int)
    requires 1 <= t && rank < t
  {
    Start(n, t, rank) <= i < Finish(n, t, rank)
  }

  /** The rank whose range holds body `i` */
  function Owner(n: nat, t: nat, i: nat): (rank: nat)
    requires 1 <= t && i < n
    ensures rank < t && InRange(n, t, rank, i)
  {
    var q := Share(n, t);
    if q == 0 then
      t - 1
    else
      var k := i / q;
      assert k * q <= i < k * q + q;
      if k < t - 1 then
        k
      else
        MulMonotone(t - 1, k, q);
        t - 1
  }

  /** The integers `lo .. hi-1` */
  function Interval(lo: int, hi: int): (s: set<int>)
    ensures forall i :: i in s <==> lo <= i < hi
    decreases hi - lo
  {
    if hi <= lo then {} else Interval(lo, hi - 1) + {hi - 1}
  }

  /** The set of bodies that `rank` works on */
  function Range(n: nat, t: nat, rank: nat): set<int>
    requires 1 <= t && rank < t
  {
    Interval(Start(n, t, rank), Finish(n, t, rank))
  }

  /** The bodies covered by ranks `0 .. k-1` together */
  function Covered(n: nat, t: nat, k: nat): set<int>
    requires 1 <= t && k <= t
  {
    if k == 0 then {} else Covered(n, t, k - 1) + Range(n, t, k - 1)
  }

  lemma {:induction false} MulMonotone(a: nat, b: nat, q: nat)
    requires a <= b
    ensures a * q <= b * q
  {
    if a < b {
      MulMonotone(a, b - 1, q);
      assert b * q == (b - 1) * q + q;
    }
  }

  /** `k` full shares fit in `n` when `k <= t` */
  lemma SharesFit(n: nat, t: nat, k: nat)
    requires 1 <= t && k <= t
    ensures k * Share(n, t) <= n
  {
    MulMonotone(k, t, n / t);
    assert t * (n / t) <= n;
  }

  /** Each rank ends where the next one starts */
  lemma Contiguous(n: nat, t: nat, rank: nat)
    requires 1 <= t && rank + 1 < t
    ensures Finish(n, t, rank) == Start(n, t, rank + 1)
  {
    assert (rank + 1) * Share(n, t) == rank * Share(n, t) + Share(n, t);
  }

  /** A lower rank's range lies entirely below a higher rank's range */
  lemma {:induction false} Ordered(n: nat, t: nat, r1: nat, r2: nat)
    requires 1 <= t && r1 < r2 < t
    ensures Finish(n, t, r1) <= Start(n, t, r2)
    decreases r2 - r1
  {
    Contiguous(n, t, r1);
    if r1 + 1 < r2 {
      Ordered(n, t, r1 + 1, r2);
    }
  }

  /** No body belongs to two ranks */
  lemma Disjoint(n: nat, t: nat, r1: nat, r2: nat)
    requires 1 <= t && r1 < t && r2 < t && r1 != r2
    ensures Range(n, t, r1) * Range(n, t, r2) == {}
  {
    if r1 < r2 {
      Ordered(n, t, r1, r2);
    } else {
      Ordered(n, t, r2, r1);
    }
  }

  /** `Owner` names the only rank whose range holds `i` */
  lemma OwnerUnique(n: nat, t: nat, rank: nat, i: nat)
    requires 1 <= t && rank < t && i < n
    ensures InRange(n, t, rank, i) <==> rank == Owner(n, t, i)
  {
    var o := Owner(n, t, i);
    if rank < o {
      Ordered(n, t, rank, o);
    } else if o < rank {
      Ordered(n, t, o, rank);
    }
  }

  lemma {:induction false} CoveredPrefix(n: nat, t: nat, k: nat)
    requires 1 <= t && 1 <= k <= t
    ensures Covered(n, t, k) == Interval(0, Finish(n, t, k - 1))
  {
    if k > 1 {
      CoveredPrefix(n, t, k - 1);
      Contiguous(n, t, k - 2);
    }
  }

  /** Together the ranks cover exactly the bodies `0 .. n-1` */
  lemma ExactCover(n: nat, t: nat)
    requires 1 <= t
    ensures Covered(n, t, t) == Interval(0, n)
  {
    CoveredPrefix(n, t, t);
  }

  /** With more threads than bodies every rank but the last is idle */
  lemma MoreThreadsThanBodies(n: nat, t: nat, rank: nat)
    requires n < t && rank < t - 1
    ensures Start(n, t, rank) == Finish(n, t, rank) == 0
  {
    assert Share(n, t) == 0;
  }
}
