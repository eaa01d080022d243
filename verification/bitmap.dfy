/** The bitmaps of kernel/libk/bits.c: arrays of 32-bit words, scanned and filled a word at a time. */
module Bitmap {

  const CPU_WIDTH: nat := 32

  /** Bit j of a machine word is element j. */
  type Word = w: seq<bool> | |w| == CPU_WIDTH witness seq(CPU_WIDTH, _ => false)

  const ZERO: Word := seq(CPU_WIDTH, _ => false)

  /** `(1UL << n) - 1`, and `-1UL` for the whole width. */
  function Ones(n: nat): Word
  {
    seq(CPU_WIDTH, j => j < n)
  }

  function ShiftLeft(w: Word, n: nat): Word
  {
    seq(CPU_WIDTH, j requires 0 <= j < CPU_WIDTH => j >= n && w[j - n])
  }

  function Or(a: Word, b: Word): Word
  {
    seq(CPU_WIDTH, j requires 0 <= j < CPU_WIDTH => a[j] || b[j])
  }

  predicate Bit(bitmap: seq<Word>, k: nat)
  {
    k < CPU_WIDTH * |bitmap| && bitmap[k / CPU_WIDTH][k % CPU_WIDTH]
  }

  /** No bit of [lo, hi) is set. */
  ghost predicate Clear(bitmap: seq<Word>, lo: nat, hi: nat)
  {
    forall k :: lo <= k < hi ==> !Bit(bitmap, k)
  }

  lemma ZeroWord(bitmap: seq<Word>, i: nat)
    requires i < |bitmap| && bitmap[i] == ZERO
    ensures Clear(bitmap, i * CPU_WIDTH, (i + 1) * CPU_WIDTH)
  {
  }

  lemma BitAt(bitmap: seq<Word>, i: nat, j: nat)
    requires i < |bitmap| && j < CPU_WIDTH
    ensures Bit(bitmap, i * CPU_WIDTH + j) == bitmap[i][j]
  {
  }

  /** The loop over the bits of one word in `bitmap_ffs2`. */
  method ScanWord(bitmap: seq<Word>, i: nat, from: nat) returns (r: int)
    requires i < |bitmap| && from < CPU_WIDTH
    ensures r == -1 || i * CPU_WIDTH + from <= r < (i + 1) * CPU_WIDTH
    ensures r != -1 ==> Bit(bitmap, r) && Clear(bitmap, i * CPU_WIDTH + from, r)
    ensures r == -1 ==> Clear(bitmap, i * CPU_WIDTH + from, (i + 1) * CPU_WIDTH)
  {
    var j := from;
    while j < CPU_WIDTH
      invariant from <= j <= CPU_WIDTH
      invariant Clear(bitmap, i * CPU_WIDTH + from, i * CPU_WIDTH + j)
    {
      BitAt(bitmap, i, j);
      if bitmap[i][j] {
        return i * CPU_WIDTH + j;
      }
      j := j + 1;
    }
    return -1;
  }

  /** `bitmap_ffs2` on a whole bitmap: the first bit set at or after `index`, or -1 if there is none. */
  method FirstSet(bitmap: seq<Word>, index: nat) returns (r: int)
    requires index <= CPU_WIDTH * |bitmap|
    ensures r == -1 || index <= r < CPU_WIDTH * |bitmap|
    ensures r != -1 ==> Bit(bitmap, r) && Clear(bitmap, index, r)
    ensures r == -1 ==> Clear(bitmap, index, CPU_WIDTH * |bitmap|)
  {
    var i: nat := index / CPU_WIDTH;
    var j: nat := index % CPU_WIDTH;
    r := -1;
    if j != 0 {
      r := ScanWord(bitmap, i, j);
      if r != -1 {
        return;
      }
      i := i + 1;
    }
    while i < |bitmap|
      invariant i <= |bitmap| && index <= i * CPU_WIDTH && r == -1
      invariant Clear(bitmap, index, i * CPU_WIDTH)
    {
      if bitmap[i] != ZERO {
        r := ScanWord(bitmap, i, 0);
        if r != -1 {
          return;
        }
      } else {
        ZeroWord(bitmap, i);
      }
      i := i + 1;
    }
  }

  /** Exactly the bits of [lo, hi) have been added. */
  ghost predicate Added(before: seq<Word>, after: seq<Word>, lo: nat, hi: nat)
  {
    && |after| == |before|
    && forall k :: 0 <= k < CPU_WIDTH * |before| ==> (Bit(after, k) <==> Bit(before, k) || lo <= k < hi)
  }

  /** One word of the fill: the bits from `lo` to `hi`, both within word i. */
  lemma FillWord(before: seq<Word>, mid: seq<Word>, start: nat, i: nat, index: nat, n: nat)
    requires i < |mid| && index + n <= CPU_WIDTH && start <= i * CPU_WIDTH + index
    requires Added(before, mid, start, i * CPU_WIDTH + index)
    ensures Added(before, mid[i := Or(mid[i], ShiftLeft(Ones(n), index))], start, i * CPU_WIDTH + index + n)
  {
    var w := Or(mid[i], ShiftLeft(Ones(n), index));
    var after := mid[i := w];
    forall k | 0 <= k < CPU_WIDTH * |before|
      ensures Bit(after, k) <==> Bit(before, k) || start <= k < i * CPU_WIDTH + index + n
    {
      var q, j := k / CPU_WIDTH, k % CPU_WIDTH;
      assert Bit(mid, k) <==> Bit(before, k) || start <= k < i * CPU_WIDTH + index;
      if q == i {
        assert w[j] <==> mid[i][j] || (index <= j < index + n);
      }
    }
  }

  /** `bitmap_set_range` */
  method SetRange(bitmap: seq<Word>, index: nat, len: nat) returns (r: seq<Word>)
    requires index + len <= CPU_WIDTH * |bitmap|
    ensures Added(bitmap, r, index, index + len)
  {
    var i: nat := index / CPU_WIDTH;
    var j: nat := index % CPU_WIDTH;
    var left: nat := len;
    r := bitmap;
    while left > 0
      invariant j < CPU_WIDTH && index <= i * CPU_WIDTH + j && i * CPU_WIDTH + j + left == index + len
      invariant Added(bitmap, r, index, i * CPU_WIDTH + j)
      decreases left
    {
      if left + j >= CPU_WIDTH {
        var n := CPU_WIDTH - j;
        FillWord(bitmap, r, index, i, j, n);
        r := r[i := Or(r[i], ShiftLeft(Ones(n), j))];
        i := i + 1;
        left := left - n;
        j := 0;
      } else {
        FillWord(bitmap, r, index, i, j, left);
        r := r[i := Or(r[i], ShiftLeft(Ones(left), j))];
        break;
      }
    }
  }

  /** `bitmap_set` and `bitmap_clear` */
  function Assign(bitmap: seq<Word>, k: nat, value: bool): (r: seq<Word>)
    requires k < CPU_WIDTH * |bitmap|
    ensures |r| == |bitmap|
    ensures forall x: nat :: Bit(r, x) == if x == k then value else Bit(bitmap, x)
  {
    var i := k / CPU_WIDTH;
    bitmap[i := bitmap[i][k % CPU_WIDTH := value]]
  }
}
