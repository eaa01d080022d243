/** Division facts shared by the models. */
module Arithmetic {

  lemma MulMono(a: nat, b: nat, m: nat)
    requires a <= b
    ensures a * m <= b * m
  {
  }

  /** Quotients are determined by their bounds. */
  lemma DivUnique(p: nat, m: nat, q: nat)
    requires m >= 1
    requires q * m <= p < q * m + m
    ensures p / m == q && p % m == p - q * m
  {
    var r := p / m;
    assert r * m <= p < r * m + m;
    assert (r + 1) * m == r * m + m && (q + 1) * m == q * m + m;
    if r < q { MulMono(r + 1, q, m); }
    if r > q { MulMono(q + 1, r, m); }
  }

  /** The k-th position of a counter that wraps at `size`. */
  function Slot(k: nat, size: nat): (i: nat)
    requires size >= 1
    ensures i < size
  {
    k % size
  }

  lemma NextSlot(k: nat, size: nat)
    requires size >= 1
    ensures (Slot(k, size) + 1) % size == Slot(k + 1, size)
  {
    var q, r := k / size, k % size;
    assert k == q * size + r;
    if r + 1 < size {
      DivUnique(k + 1, size, q);
      DivUnique(r + 1, size, 0);
    } else {
      assert (q + 1) * size == q * size + size;
      DivUnique(k + 1, size, q + 1);
      DivUnique(r + 1, size, 1);
    }
  }

  /** Counts less than one lap apart have different positions. */
  lemma SlotInjective(j: nat, k: nat, size: nat)
    requires size >= 1 && j < k < j + size
    ensures Slot(j, size) != Slot(k, size)
  {
    var q := j / size;
    assert (q + 1) * size == q * size + size;
    if j % size + (k - j) < size {
      DivUnique(k, size, q);
    } else {
      DivUnique(k, size, q + 1);
    }
  }

  lemma Lap(c: nat, size: nat)
    requires size >= 1
    ensures Slot(c + size, size) == Slot(c, size)
  {
    var q := c / size;
    assert (q + 1) * size == q * size + size;
    DivUnique(c + size, size, q + 1);
  }

  /** ARROUND_UP for a power of two. */
  function RoundUp(val: nat, size: nat): (r: nat)
    requires size > 0
    ensures r % size == 0 && val <= r < val + size
  {
    if val % size != 0 then
      RoundsUp(val, size);
      val - val % size + size
    else val
  }

  lemma RoundsUp(val: nat, size: nat)
    requires size > 0
    ensures (val - val % size + size) % size == 0
  {
    var q := val / size;
    assert val - val % size + size == (q + 1) * size;
    DivUnique((q + 1) * size, size, q + 1);
  }
}
