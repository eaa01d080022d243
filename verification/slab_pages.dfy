/** One page of the slab allocator of kernel/mm/kcm.c, and the layout of blocks in it. */
module SlabPages {
  import opened Arithmetic
  import opened Bitmap
  import opened Collections

  const PAGE: nat := 4096          // KCM_PAGE_SIZE
  const HEADER: nat := 40          // sizeof(page_info_t), 32-bit
  const TABLE: nat := 64           // where the block table starts: HEADER rounded up to 32 or to 64
  const BITMAP_WORDS: nat := 4     // BITMAP_DECLARE(bitmap, 16)

  // ---------------------------------------------------------------- layout

  function Alignment(aligne: nat): nat
  {
    if aligne != 0 && aligne < 33 then 32 else 64
  }

  /** `kcm->size` */
  function BlockSize(size: nat, aligne: nat): nat
  {
    RoundUp(size, Alignment(aligne))
  }

  /** `kcm->blocks_nr` for a block size of at most a page. */
  function BlocksNr(bs: nat): int
    requires 0 < bs
  {
    if PAGE % bs >= HEADER then PAGE / bs else PAGE / bs - 1
  }

  lemma Remainder(bs: nat)
    requires 0 < bs && bs % 32 == 0
    ensures PAGE % bs % 32 == 0
  {
    var q, k := PAGE / bs, bs / 32;
    assert bs == 32 * k;
    assert PAGE % bs == PAGE - q * bs == 32 * (128 - q * k);
  }

  lemma BlocksSpan(bs: nat)
    requires 0 < bs
    ensures BlocksNr(bs) * bs == PAGE - PAGE % bs - if PAGE % bs >= HEADER then 0 else bs
  {
    var q := PAGE / bs;
    assert q * bs == PAGE - PAGE % bs;
    assert (q - 1) * bs == q * bs - bs;
  }

  lemma QuotientBound(q: nat, bs: nat)
    requires 32 <= bs <= PAGE && q * bs <= PAGE < q * bs + bs
    ensures 1 <= q <= 128
  {
    MulMono(32, bs, q);
  }

  lemma BlocksBound(bs: nat)
    requires 32 <= bs <= PAGE
    ensures 0 <= BlocksNr(bs) <= CPU_WIDTH * BITMAP_WORDS
  {
    QuotientBound(PAGE / bs, bs);
  }

  lemma Rounded(size: nat, aligne: nat)
    requires 0 < size
    ensures var bs := BlockSize(size, aligne); bs % 32 == 0 && bs >= 32 && (bs == 32 <==> size <= 32 && 0 < aligne < 33)
    ensures TABLE == RoundUp(HEADER, Alignment(aligne))
  {
    if Alignment(aligne) == 32 {
      assert BlockSize(size, aligne) == RoundUp(size, 32);
    } else {
      assert BlockSize(size, aligne) == RoundUp(size, 64);
    }
  }

  lemma FitsIff(bs: nat)
    requires 32 <= bs <= PAGE && bs % 32 == 0
    ensures TABLE + BlocksNr(bs) * bs <= PAGE <==> bs != 32
  {
    Remainder(bs);
    BlocksSpan(bs);
    var r, span := PAGE % bs, BlocksNr(bs) * bs;
    assert bs == 32 ==> r == 0;
    assert span == PAGE - r - if r >= HEADER then 0 else bs;
    assert r >= HEADER ==> r >= 64;
    hide BlocksNr;
  }

  /** The blocks and the rounded header fit in a page exactly when blocks are larger than 32 bytes: for
      smaller ones `kcm_init` counts one block too many. */
  lemma LayoutFits(size: nat, aligne: nat)
    requires 0 < size && BlockSize(size, aligne) <= PAGE
    ensures TABLE == RoundUp(HEADER, Alignment(aligne))
    ensures var bs := BlockSize(size, aligne); TABLE + BlocksNr(bs) * bs <= PAGE <==> !(size <= 32 && 0 < aligne < 33)
    ensures 0 <= BlocksNr(BlockSize(size, aligne)) <= CPU_WIDTH * BITMAP_WORDS
  {
    var bs := BlockSize(size, aligne);
    Rounded(size, aligne);
    FitsIff(bs);
    BlocksBound(bs);
    hide BlocksNr, BlockSize, RoundUp;
  }

  /** The failing layout: 32-byte blocks reach 32 bytes past their page. */
  lemma SmallBlocksOverrun()
    ensures TABLE + BlocksNr(BlockSize(32, 32)) * BlockSize(32, 32) == PAGE + 32
  {
  }

  // ---------------------------------------------------------------- pointers

  function Offset(i: nat, bs: nat): nat
  {
    i * bs
  }

  /** The address of block `i` of the page at `p`. */
  function Ptr(p: nat, i: nat, bs: nat): nat
  {
    p + TABLE + Offset(i, bs)
  }

  /** `ptr & KCM_PAGE_MASK` */
  function PageOf(ptr: nat): nat
  {
    ptr - ptr % PAGE
  }

  /** The block index `put_block` computes. */
  function IndexOf(ptr: nat, bs: nat): int
    requires bs > 0
  {
    (ptr % PAGE - TABLE) / bs
  }

  ghost predicate Fits(bs: nat, n: nat)
  {
    0 < bs && 0 < n <= CPU_WIDTH * BITMAP_WORDS && TABLE + Offset(n, bs) <= PAGE
  }

  lemma Span(i: nat, n: nat, bs: nat)
    requires i < n
    ensures Offset(i, bs) + bs <= Offset(n, bs)
  {
    assert i * bs + bs == (i + 1) * bs;
    MulMono(i + 1, n, bs);
  }

  lemma InPage(p: nat, x: nat)
    requires p % PAGE == 0 && TABLE + x < PAGE
    ensures (p + TABLE + x) % PAGE == TABLE + x
  {
  }

  /** A block pointer leads back to its page and its index, and the block is inside the page, past the header. */
  lemma PtrRoundTrip(p: nat, i: nat, n: nat, bs: nat)
    requires Fits(bs, n) && p % PAGE == 0 && i < n
    ensures PageOf(Ptr(p, i, bs)) == p && IndexOf(Ptr(p, i, bs), bs) == i
    ensures p + HEADER <= Ptr(p, i, bs) && Ptr(p, i, bs) + bs <= p + PAGE
  {
    Span(i, n, bs);
    InPage(p, Offset(i, bs));
    DivUnique(i * bs, bs, i);
  }

  lemma PtrsApart(p: nat, i: nat, q: nat, j: nat, n: nat, bs: nat)
    requires Fits(bs, n) && p % PAGE == 0 && q % PAGE == 0 && i < n && j < n && (p, i) != (q, j)
    ensures Ptr(p, i, bs) + bs <= Ptr(q, j, bs) || Ptr(q, j, bs) + bs <= Ptr(p, i, bs)
  {
    Span(i, n, bs);
    Span(j, n, bs);
    hide Offset;
    if p == q {
      if i < j { Span(i, j, bs); } else { Span(j, i, bs); }
    }
  }

  // ---------------------------------------------------------------- one page

  /** `page_info_t`: a set bit of the bitmap is a free block. */
  datatype PageInfo = PageInfo(bitmap: seq<Word>, currentIndex: nat, refcount: nat, active: bool, busy: bool)

  ghost function Taken(bitmap: seq<Word>, n: nat): set<nat>
  {
    set i: nat | i < n && !Bit(bitmap, i)
  }

  /** No free bit past the blocks or below the cursor; the reference count is the number of blocks taken. */
  ghost predicate PageOk(pi: PageInfo, n: nat)
  {
    && |pi.bitmap| == BITMAP_WORDS && n <= CPU_WIDTH * BITMAP_WORDS
    && Clear(pi.bitmap, n, CPU_WIDTH * BITMAP_WORDS)
    && Clear(pi.bitmap, 0, pi.currentIndex)
    && pi.refcount == |Taken(pi.bitmap, n)|
  }

  ghost predicate Full(pi: PageInfo, n: nat)
  {
    forall i :: 0 <= i < n ==> !Bit(pi.bitmap, i)
  }

  lemma EmptyPage(pi: PageInfo, n: nat)
    requires PageOk(pi, n) && pi.refcount == 0
    ensures forall i :: 0 <= i < n ==> Bit(pi.bitmap, i)
  {
    assert Taken(pi.bitmap, n) == {};
    forall i | 0 <= i < n
      ensures Bit(pi.bitmap, i)
    {
      assert i !in Taken(pi.bitmap, n);
    }
  }

  /** `get_block`: the first free block, and none exactly when the page is full. */
  method GetBlock(pi: PageInfo, n: nat) returns (index: Option<nat>, pi': PageInfo)
    requires PageOk(pi, n)
    ensures PageOk(pi', n) && pi'.active == pi.active && pi'.busy == pi.busy
    ensures index.None? <==> Full(pi, n)
    ensures index.None? ==> pi' == pi
    ensures index.Some? ==> index.value < n && Bit(pi.bitmap, index.value) && Clear(pi.bitmap, 0, index.value)
    ensures index.Some? ==> forall k: nat :: Bit(pi'.bitmap, k) == (Bit(pi.bitmap, k) && k != index.value)
    ensures index.Some? ==> pi'.refcount == pi.refcount + 1
  {
    pi' := pi;
    if pi.currentIndex >= n {
      return None, pi;
    }
    var k := FirstSet(pi.bitmap, pi.currentIndex);
    if k == -1 {
      return None, pi;
    }
    assert k < n && Bit(pi.bitmap, k);
    pi' := PageInfo(Assign(pi.bitmap, k, false), k + 1, pi.refcount + 1, pi.active, pi.busy);
    assert Taken(pi'.bitmap, n) == Taken(pi.bitmap, n) + {k};
    return Some(k), pi';
  }

  /** The first half of `put_block`: the block is free again. */
  function PutBlock(pi: PageInfo, i: nat, n: nat): (r: PageInfo)
    requires PageOk(pi, n) && i < n && !Bit(pi.bitmap, i)
    ensures PageOk(r, n) && r.active == pi.active && r.busy == pi.busy && r.refcount + 1 == pi.refcount
    ensures forall k: nat :: Bit(r.bitmap, k) == (Bit(pi.bitmap, k) || k == i)
  {
    var bitmap := Assign(pi.bitmap, i, true);
    assert i in Taken(pi.bitmap, n);
    assert Taken(bitmap, n) == Taken(pi.bitmap, n) - {i};
    PageInfo(bitmap, if i < pi.currentIndex then i else pi.currentIndex, pi.refcount - 1, pi.active, pi.busy)
  }

  /** The header `freelist_populate` writes into a fresh, clear page. */
  method FreshPage(n: nat) returns (pi: PageInfo)
    requires n <= CPU_WIDTH * BITMAP_WORDS
    ensures PageOk(pi, n) && pi.refcount == 0 && !pi.active && !pi.busy
    ensures forall k: nat :: Bit(pi.bitmap, k) <==> k < n
  {
    var clear: seq<Word> := seq(BITMAP_WORDS, _ => ZERO);
    var bitmap := SetRange(clear, 0, n);
    pi := PageInfo(bitmap, 0, 0, false, false);
    assert forall k: nat :: !Bit(clear, k);
    assert Taken(bitmap, n) == {};
  }
}
