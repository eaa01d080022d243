/** Arithmetic of power-of-two page blocks: the index computations of kernel/mm/ppm.c. */
module BuddyMath {
  import opened Arithmetic

  function Pow2(k: nat): (r: nat)
    ensures r >= 1
  {
    if k == 0 then 1 else 2 * Pow2(k - 1)
  }

  /** First page of the aligned run of 2^k pages that contains page p. */
  function Base(p: nat, k: nat): nat
  {
    RoundDown(p, Pow2(k))
  }

  /** `p ^ (1 << k)`: flips bit k of a page index. */
  function Buddy(p: nat, k: nat): nat
  {
    if p / Pow2(k) % 2 == 0 then p + Pow2(k) else OddQuotient(p, Pow2(k)); p - Pow2(k)
  }

  // ---------------------------------------------------------------- multiples of m

  function RoundDown(p: nat, m: nat): (r: nat)
    requires m >= 1
    ensures r <= p < r + m
  {
    p / m * m
  }

  lemma OddQuotient(p: nat, m: nat)
    requires m >= 1 && p / m % 2 == 1
    ensures p >= m
  {
    if p / m == 0 { assert false; }
  }

  lemma RoundUnique(p: nat, b: nat, m: nat)
    requires m >= 1 && RoundDown(b, m) == b
    requires b <= p < b + m
    ensures p / m == b / m && RoundDown(p, m) == b
  {
    DivUnique(p, m, b / m);
  }

  lemma RoundIdempotent(p: nat, m: nat)
    requires m >= 1
    ensures RoundDown(RoundDown(p, m), m) == RoundDown(p, m)
  {
    DivUnique(RoundDown(p, m), m, p / m);
  }

  lemma DoubleQuotient(q: nat, m: nat)
    ensures q * m == q / 2 * (2 * m) + (if q % 2 == 0 then 0 else m)
  {
    var h := q / 2;
    assert h * (2 * m) == h * m + h * m;
    if q % 2 == 0 {
      assert q * m == (h + h) * m;
    } else {
      assert q * m == (h + h + 1) * m;
    }
  }

  lemma RoundHalf(p: nat, m: nat)
    requires m >= 1
    ensures RoundDown(p, m) == RoundDown(p, 2 * m) + (if p / m % 2 == 0 then 0 else m)
    ensures RoundDown(RoundDown(p, m), 2 * m) == RoundDown(p, 2 * m)
  {
    var q := p / m;
    var r := RoundDown(p, m);
    assert r == q * m;
    DoubleQuotient(q, m);
    DivUnique(p, 2 * m, q / 2);
    DivUnique(r, 2 * m, q / 2);
  }

  lemma RoundNeighbour(b: nat, m: nat)
    requires m >= 1 && RoundDown(b, m) == b
    ensures RoundDown(b + m, m) == b + m && (b + m) / m == b / m + 1
    ensures b >= m ==> RoundDown(b - m, m) == b - m && (b - m) / m == b / m - 1
  {
    var q := b / m;
    assert (q + 1) * m == b + m;
    DivUnique(b + m, m, q + 1);
    if b >= m {
      if q == 0 { assert false; }
      assert (q - 1) * m == b - m;
      DivUnique(b - m, m, q - 1);
    }
  }

  lemma RoundGap(p: nat, n: nat, m: nat)
    requires m >= 1 && RoundDown(n, m) == n && p < n
    ensures RoundDown(p, m) + m <= n
  {
    var q, t := p / m, n / m;
    if t <= q { MulMono(t, q, m); }
    MulMono(q + 1, t, m);
    assert (q + 1) * m == q * m + m;
  }

  // ---------------------------------------------------------------- aligned runs

  lemma BaseBounds(p: nat, k: nat)
    ensures Base(p, k) <= p < Base(p, k) + Pow2(k)
  {
  }

  /** An aligned run that contains p starts at Base(p, k). */
  lemma BaseUnique(p: nat, b: nat, k: nat)
    requires Base(b, k) == b
    requires b <= p < b + Pow2(k)
    ensures Base(p, k) == b
  {
    hide RoundDown;
    RoundUnique(p, b, Pow2(k));
  }

  lemma BaseIdempotent(p: nat, k: nat)
    ensures Base(Base(p, k), k) == Base(p, k)
  {
    hide RoundDown;
    RoundIdempotent(p, Pow2(k));
  }

  /** The run of order k is one half of the run of order k+1 around it. */
  lemma BaseHalf(p: nat, k: nat)
    ensures Base(p, k) == Base(p, k + 1) || Base(p, k) == Base(p, k + 1) + Pow2(k)
    ensures Base(Base(p, k), k + 1) == Base(p, k + 1)
    ensures Pow2(k + 1) == 2 * Pow2(k)
  {
    hide RoundDown;
    RoundHalf(p, Pow2(k));
  }

  /** Aligned runs are nested. */
  lemma {:induction false} BaseNest(p: nat, j: nat, k: nat)
    requires j <= k
    ensures Base(Base(p, j), k) == Base(p, k)
    ensures Base(p, k) <= Base(p, j)
    ensures Base(p, j) + Pow2(j) <= Base(p, k) + Pow2(k)
    decreases k - j
  {
    hide Base;
    if j == k {
      BaseIdempotent(p, k);
    } else {
      BaseHalf(p, j);
      BaseNest(p, j + 1, k);
      BaseNest(Base(p, j), j + 1, k);
    }
  }

  /** A run aligned for order k is aligned for every smaller order. */
  lemma AlignedDown(b: nat, j: nat, k: nat)
    requires j <= k && Base(b, k) == b
    ensures Base(b, j) == b
  {
    hide Base, Pow2;
    BaseNest(b, j, k);
    BaseBounds(b, j);
  }

  /** Pages that share a run share every larger run. */
  lemma SameRunUp(p: nat, q: nat, j: nat, k: nat)
    requires j <= k && Base(p, j) == Base(q, j)
    ensures Base(p, k) == Base(q, k)
  {
    hide Base;
    BaseNest(p, j, k);
    BaseNest(q, j, k);
  }

  /** The buddy of an aligned run is the other half of the enclosing run, and their common
      start is the smaller of the two (`p & buddy`). */
  lemma BuddyHalf(p: nat, k: nat)
    requires Base(p, k) == p
    ensures var b := Buddy(p, k);
      && Base(b, k) == b && b != p
      && Base(b, k + 1) == Base(p, k + 1)
      && Buddy(b, k) == p
      && Base(p, k + 1) == (if b < p then b else p)
      && (p == Base(p, k + 1) ==> b == p + Pow2(k))
      && Pow2(k + 1) == 2 * Pow2(k)
  {
    hide RoundDown;
    var m := Pow2(k);
    RoundHalf(p, m);
    BuddyAligned(p, m);
    RoundHalf(Buddy(p, k), m);
  }

  lemma BuddyAligned(b: nat, m: nat)
    requires m >= 1 && RoundDown(b, m) == b
    ensures RoundDown(b + m, m) == b + m && (b + m) / m % 2 != b / m % 2
    ensures b / m % 2 == 1 ==> b >= m && RoundDown(b - m, m) == b - m && (b - m) / m % 2 == 0
  {
    RoundNeighbour(b, m);
    if b / m % 2 == 1 { OddQuotient(b, m); }
  }

  /** A table whose size is a multiple of 2^k holds the whole run of order k around each page. */
  lemma RunFits(n: nat, p: nat, j: nat, k: nat)
    requires Base(n, k) == n && p < n && j <= k
    ensures Base(p, j) + Pow2(j) <= n
  {
    BaseNest(p, j, k);
    hide RoundDown;
    RoundGap(p, n, Pow2(k));
  }

  // ---------------------------------------------------------------- which tables hold every buddy

  /** The merge loop, which looks at the buddy of every block of an order below `last`, stays inside a table of n
      pages. */
  ghost predicate BuddiesInside(n: nat, last: nat)
  {
    forall b: nat, k: nat :: k < last && Base(b, k) == b && b + Pow2(k) <= n ==> Buddy(b, k) < n
  }

  /** It does exactly when the table is a multiple of the largest block. */
  lemma BuddiesInsideIff(n: nat, last: nat)
    ensures BuddiesInside(n, last) <==> Base(n, last) == n
  {
    hide Base, Pow2, Buddy;
    if Base(n, last) == n {
      forall b: nat, k: nat | k < last && Base(b, k) == b && b + Pow2(k) <= n
        ensures Buddy(b, k) < n
      {
        BuddyHalf(b, k);
        RunFits(n, b, k + 1, last);
        BaseBounds(Buddy(b, k), k + 1);
      }
    } else {
      var b, k := LastBlock(n, last);
    }
  }

  /** Otherwise the last block of the table, of the size of the lowest bit set in n, has a buddy just past it. */
  lemma {:induction false} LastBlock(n: nat, last: nat) returns (b: nat, k: nat)
    requires Base(n, last) != n
    ensures k < last && Base(b, k) == b && b + Pow2(k) == n && Buddy(b, k) == n
  {
    hide Buddy, RoundDown;
    if last == 0 {
      assert false;
    } else if Base(n, last - 1) != n {
      b, k := LastBlock(n, last - 1);
    } else {
      k := last - 1;
      b := Base(n, last);
      BaseHalf(n, k);
      BaseIdempotent(n, last);
      AlignedDown(b, k, last);
      BuddyHalf(b, k);
    }
  }

  /** With 513 pages, releasing page 512 reads entry 513 of the table. */
  lemma OnePageMore()
    ensures Base(512, 0) == 512 && 512 + Pow2(0) == 513 && Buddy(512, 0) == 513 && !BuddiesInside(513, 9)
  {
    assert Buddy(512, 0) == 513 && Base(512, 0) == 512;
  }
}
