/** The buddy allocator of kernel/mm/ppm.c over the page table of one cluster. Each operation runs under
    `ppm->lock` and is one atomic step here. */
module BuddyAllocator {
  import opened BuddyMath
  import opened BuddyTiling
  import opened Collections

  class Ppm {
    const pages: array<Page>       // pages_tbl
    var free: FreeLists            // free_pages[k].root, as page indices
    var nr: seq<nat>               // free_pages[k].pages_nr
    var freeNr: nat                // free_pages_nr
    ghost var tile: seq<nat>       // order of the block each page belongs to

    ghost predicate Valid()
      reads this, pages
    {
      && |tile| == pages.Length && |free| == MAX_ORDER
      && Sound(pages[..], free, tile, -1)
      && Maximal(free)
      && Counted()
      && freeNr == Weight(free, MAX_ORDER)
      && freeNr == |FreeSet()|
    }

    ghost predicate Counted()
      reads this
    {
      && |free| == |nr| == MAX_ORDER
      && forall k :: 0 <= k < MAX_ORDER ==> nr[k] == |free[k]|
    }

    ghost function FreeSet(): set<nat>
      requires |free| == MAX_ORDER
      reads this
    {
      FreePages(free, pages.Length)
    }

    ghost function Blocks(): map<nat, Page>
      reads pages
    {
      InUse(pages[..])
    }

    /** The pages of the run of order k at b, all of them inside the table. */
    ghost function Pages(b: nat, k: nat): set<nat>
    {
      Run(b, k, pages.Length)
    }

    /** `ppm_init` from boot: pages below `reservedNr` and in [reservedLo, reservedHi) are reserved, every
        other page is released one by one. */
    constructor (pagesNr: nat, reservedNr: nat, reservedLo: nat, reservedHi: nat)
      requires Base(pagesNr, LAST_ORDER) == pagesNr
      ensures Valid() && pages.Length == pagesNr && fresh(pages)
      ensures forall p: nat :: p in FreeSet() <==> p < pagesNr && reservedNr <= p && (p < reservedLo || reservedHi <= p)
      ensures Blocks() ==
        map p: nat | p < pagesNr && AtBoot(p, reservedNr, reservedLo, reservedHi) :: Page(Reserved, 0, 1)
    {
      pages := new Page[pagesNr](i requires 0 <= i =>
        if AtBoot(i, reservedNr, reservedLo, reservedHi) then Page(Reserved, 0, 1) else Page(Init, 0, 0));
      free := seq(MAX_ORDER, _ => []);
      nr := seq(MAX_ORDER, _ => 0);
      freeNr := 0;
      tile := seq(pagesNr, _ => 0);
      new;
      hide Base, Pow2, Buddy;
      BootSound(pages[..], free, tile);
      InitFinalize(reservedNr, reservedLo, reservedHi);
      assert FreeSet() == set p: nat | p < pagesNr && !AtBoot(p, reservedNr, reservedLo, reservedHi);
    }

    /** The loop of `ppm_init_finalize`. */
    method InitFinalize(reservedNr: nat, reservedLo: nat, reservedHi: nat)
      requires Valid() && FreeSet() == {}
      requires Blocks() == BootBlocks(0, pages.Length, reservedNr, reservedLo, reservedHi)
      modifies this, pages
      ensures Valid()
      ensures FreeSet() == BootFree(pages.Length, reservedNr, reservedLo, reservedHi)
      ensures Blocks() == BootBlocks(pages.Length, pages.Length, reservedNr, reservedLo, reservedHi)
    {
      hide Base, Pow2, Buddy, Sound, Maximal, FreePages, Run, InUse, Weight, AtBoot, BootBlocks, BootFree;
      var i := 0;
      BootStart(pages.Length, reservedNr, reservedLo, reservedHi);
      while i < pages.Length
        invariant 0 <= i <= pages.Length && Valid()
        invariant FreeSet() == BootFree(i, reservedNr, reservedLo, reservedHi)
        invariant Blocks() == BootBlocks(i, pages.Length, reservedNr, reservedLo, reservedHi)
      {
        BootStep(pages[..], i, reservedNr, reservedLo, reservedHi);
        if pages[i].state != Reserved {
          FreePagesNoLock(i, pages[i].order);
        }
        i := i + 1;
      }
    }

    /** `list_unlink` of block y from the list of order k, with its counter. */
    method UnlinkBlock(k: nat, y: nat)
      requires Counted() && k < MAX_ORDER && y in free[k]
      modifies this`free, this`nr
      ensures Counted() && free == old(free)[k := Without(old(free[k]), y)]
      ensures Weight(free, MAX_ORDER) == Weight(old(free), MAX_ORDER) - Pow2(k)
    {
      hide Pow2;
      WeightUpdate(free, MAX_ORDER, k, Without(free[k], y));
      free := free[k := Without(free[k], y)];
      nr := nr[k := nr[k] - 1];
    }

    /** `list_add` of block h at the front of the list of order k, with its counter. */
    method LinkBlock(k: nat, h: nat)
      requires Counted() && k < MAX_ORDER
      modifies this`free, this`nr
      ensures Counted() && free == old(free)[k := [h] + old(free[k])]
      ensures Weight(free, MAX_ORDER) == Weight(old(free), MAX_ORDER) + Pow2(k)
    {
      hide Pow2;
      WeightUpdate(free, MAX_ORDER, k, [h] + free[k]);
      free := free[k := [h] + free[k]];
      nr := nr[k := nr[k] + 1];
    }

    method SetOrder(p: nat, k: nat)
      requires p < pages.Length
      modifies pages
      ensures pages[..] == old(pages[..])[p := old(pages[p]).(order := k)]
    {
      pages[p] := pages[p].(order := k);
    }

    method SetPage(p: nat, page: Page)
      requires p < pages.Length
      modifies pages
      ensures pages[..] == old(pages[..])[p := page]
    {
      pages[p] := page;
    }

    /** `ppm_free_pages_nolock`: releases the block that starts at page `index`, coalescing upwards. */
    method FreePagesNoLock(index: nat, order: nat)
      requires Valid()
      requires index < pages.Length && pages[index].state in {Init, Invalid, PageState.Valid}
      requires pages[index].refcount == 0 && order == pages[index].order
      modifies this, pages
      ensures Valid()
      ensures Pages(index, order) !! old(FreeSet())
      ensures FreeSet() == old(FreeSet()) + Pages(index, order)
      ensures Blocks() == old(Blocks()) - {index}
      ensures freeNr == old(freeNr) + Pow2(order)
    {
      hide Base, Pow2, Buddy, Sound, Maximal, FreePages, Run, InUse, Weight, Retile;
      StartFree(pages[..], free, tile, index);
      RunSize(index, order, pages.Length);
      SetPage(index, Page(Free, order, 0));
      freeNr := freeNr + Pow2(order);
      var pageIndex: nat, current: nat := index, order;
      while current < LAST_ORDER
        invariant current <= LAST_ORDER && Counted() && Maximal(free)
        invariant pageIndex < |tile| == pages.Length && tile[pageIndex] == current
        invariant Sound(pages[..], free, tile, pageIndex)
        invariant freeNr == Weight(free, MAX_ORDER) + Pow2(current) == old(freeNr) + Pow2(order)
        invariant FreeSet() + Pages(pageIndex, current) == old(FreeSet()) + Pages(index, order)
        invariant Blocks() == old(Blocks()) - {index}
      {
        var block := Buddy(pageIndex, current);
        StepFree(pages[..], free, tile, pageIndex, current);
        if pages[block].state != Free || pages[block].order != current {
          break;
        }
        DoubleRun(current);
        UnlinkBlock(current, block);
        SetOrder(block, 0);
        pageIndex := if block < pageIndex then block else pageIndex;
        tile := Retile(tile, pageIndex, current + 1, current + 1);
        current := current + 1;
      }
      FinishFree(pages[..], free, tile, pageIndex, current);
      SetOrder(pageIndex, current);
      LinkBlock(current, pageIndex);
    }

    /** `ppm_free_pages`: drops one reference, and releases the block with the last one. */
    method ReleasePages(index: nat)
      requires Valid()
      requires index < pages.Length && pages[index].state in {Invalid, PageState.Valid}
      requires pages[index].refcount >= 1
      modifies this, pages
      ensures Valid()
      ensures old(pages[index].refcount) > 1 ==>
        FreeSet() == old(FreeSet()) && free == old(free)
        && Blocks() == old(Blocks())[index := old(pages[index]).(refcount := old(pages[index].refcount) - 1)]
      ensures old(pages[index].refcount) == 1 ==>
        && FreeSet() == old(FreeSet()) + Pages(index, old(pages[index].order))
        && Blocks() == old(Blocks()) - {index}
    {
      hide Base, Pow2, Buddy, FreePages, Run, Weight;
      var page := pages[index];
      Owned(pages[..], free, tile, index, page.(refcount := page.refcount - 1));
      SetPage(index, page.(refcount := page.refcount - 1));
      if page.refcount > 1 {
        return;
      }
      FreePagesNoLock(index, page.order);
    }

    /** The search loop of `ppm_do_alloc_pages`. */
    method FindOrder(order: nat) returns (current: nat)
      requires |free| == MAX_ORDER
      ensures current >= MAX_ORDER ==> forall j :: order <= j < MAX_ORDER ==> free[j] == []
      ensures current < MAX_ORDER ==> order <= current && FirstFit(free, order, current)
    {
      current := order;
      while current < MAX_ORDER && free[current] == []
        invariant order <= current
        invariant forall j :: order <= j < current && j < MAX_ORDER ==> free[j] == []
      {
        current := current + 1;
      }
    }

    /** The splitting loop of `ppm_do_alloc_pages`: block in flight gives back its upper halves. */
    method SplitBlock(block: nat, from: nat, order: nat)
      requires order <= from <= LAST_ORDER && Counted() && Maximal(free)
      requires block < |tile| == pages.Length && tile[block] == from
      requires Base(block, from) == block && Sound(pages[..], free, tile, block)
      modifies this`free, this`nr, this`tile, pages
      ensures Counted() && Maximal(free)
      ensures |tile| == pages.Length && tile[block] == order
      ensures Base(block, order) == block && Sound(pages[..], free, tile, block)
      ensures Pages(block, order) <= Pages(block, from)
      ensures FreeSet() == old(FreeSet()) + (Pages(block, from) - Pages(block, order))
      ensures Weight(free, MAX_ORDER) + Pow2(order) == old(Weight(free, MAX_ORDER)) + Pow2(from)
      ensures Blocks() == old(Blocks())
    {
      hide Base, Pow2, Buddy, Sound, Maximal, FreePages, Run, InUse, Weight, Retile;
      var current := from;
      while current > order
        invariant order <= current <= LAST_ORDER && Counted() && Maximal(free)
        invariant block < |tile| == pages.Length && tile[block] == current
        invariant Base(block, current) == block && Sound(pages[..], free, tile, block)
        invariant Pages(block, current) <= Pages(block, from)
        invariant FreeSet() == old(FreeSet()) + (Pages(block, from) - Pages(block, current))
        invariant Weight(free, MAX_ORDER) + Pow2(current) == old(Weight(free, MAX_ORDER)) + Pow2(from)
        invariant Blocks() == old(Blocks())
      {
        current := current - 1;
        StepAlloc(pages[..], free, tile, block, current);
        DoubleRun(current);
        var remaining := block + Pow2(current);
        SetOrder(remaining, current);
        LinkBlock(current, remaining);
        tile := Retile(tile, block, current + 1, current);
      }
    }

    /** `ppm_do_alloc_pages`: splits the first block of the smallest sufficient order. */
    method AllocPages(order: nat) returns (r: Option<nat>)
      requires Valid()
      modifies this, pages
      ensures Valid()
      ensures r.None? <==> (order > LAST_ORDER ||
        forall b: nat :: b < pages.Length && Base(b, order) == b ==> !(Pages(b, order) <= old(FreeSet())))
      ensures r.None? ==> free == old(free) && pages[..] == old(pages[..])
      ensures r.Some? ==>
        && r.value < pages.Length && Base(r.value, order) == r.value
        && Pages(r.value, order) <= old(FreeSet())
        && FreeSet() == old(FreeSet()) - Pages(r.value, order)
        && Blocks() == old(Blocks())[r.value := Page(Invalid, order, 1)]
        && freeNr == old(freeNr) - Pow2(order)
      ensures r.Some? ==> r.value !in old(Blocks()) && TakenFrom(old(free), order, r.value)
    {
      hide Base, Pow2, Buddy, Sound, Maximal, FreePages, Run, InUse, Weight, Retile, TakenFrom;
      var current := FindOrder(order);
      if current >= MAX_ORDER {
        if order <= LAST_ORDER {
          forall b: nat | b < pages.Length && Base(b, order) == b
            ensures !(Pages(b, order) <= FreeSet())
          {
            NoRunFree(pages[..], free, tile, order, b);
          }
        }
        return None;
      }
      var block := free[current][0];
      FirstFitTaken(free, order, current);
      StartAlloc(pages[..], free, tile, current);
      UnlinkBlock(current, block);
      SplitBlock(block, current, order);
      AllocSize(pages[..], free, tile, block, old(FreeSet()));
      FinishAlloc(pages[..], free, tile, block);
      freeNr := freeNr - Pow2(order);
      SetPage(block, Page(Invalid, order, pages[block].refcount + 1));
      return Some(block);
    }
  }

  /** Pages set aside at boot: the page table itself and the image in [lo, hi). */
  predicate AtBoot(p: nat, nr: nat, lo: nat, hi: nat)
  {
    p < nr || lo <= p < hi
  }

  /** Blocks in use once the pages below i have been released. */
  ghost function BootBlocks(i: nat, n: nat, nr: nat, lo: nat, hi: nat): map<nat, Page>
  {
    map p: nat | p < n && (i <= p || AtBoot(p, nr, lo, hi)) ::
      if AtBoot(p, nr, lo, hi) then Page(Reserved, 0, 1) else Page(Init, 0, 0)
  }

  ghost function BootFree(i: nat, nr: nat, lo: nat, hi: nat): set<nat>
  {
    set p: nat | p < i && !AtBoot(p, nr, lo, hi)
  }

  lemma BootStart(n: nat, nr: nat, lo: nat, hi: nat)
    ensures BootFree(0, nr, lo, hi) == {}
  {
  }

  lemma BootStep(pages: seq<Page>, i: nat, nr: nat, lo: nat, hi: nat)
    requires i < |pages| && InUse(pages) == BootBlocks(i, |pages|, nr, lo, hi)
    ensures pages[i] == if AtBoot(i, nr, lo, hi) then Page(Reserved, 0, 1) else Page(Init, 0, 0)
    ensures BootFree(i + 1, nr, lo, hi) == BootFree(i, nr, lo, hi) + if AtBoot(i, nr, lo, hi) then {}
      else Run(i, 0, |pages|)
    ensures BootBlocks(i + 1, |pages|, nr, lo, hi)
         == if AtBoot(i, nr, lo, hi) then BootBlocks(i, |pages|, nr, lo, hi)
           else BootBlocks(i, |pages|, nr, lo, hi) - {i}
  {
    SinglePage(i, |pages|);
    hide Run, AtBoot;
    assert i in InUse(pages) && InUse(pages)[i] == pages[i];
  }

  /** Order j is the least one from `order` up whose list is not empty. */
  ghost predicate FirstFit(free: FreeLists, order: nat, j: nat)
  {
    j < |free| && free[j] != [] && forall i :: order <= i < j ==> free[i] == []
  }

  /** The block comes from the front of the first-fit list. */
  ghost predicate TakenFrom(free: FreeLists, order: nat, b: nat)
  {
    exists j :: order <= j && FirstFit(free, order, j) && b == free[j][0]
  }

  lemma FirstFitTaken(free: FreeLists, order: nat, j: nat)
    requires order <= j && FirstFit(free, order, j)
    ensures TakenFrom(free, order, free[j][0])
  {
  }

  lemma BootSound(pages: seq<Page>, free: FreeLists, tile: seq<nat>)
    requires |pages| == |tile| && Base(|pages|, LAST_ORDER) == |pages|
    requires forall p :: 0 <= p < |pages| ==> pages[p].order == 0 && pages[p].state != Free && tile[p] == 0
    requires |free| == MAX_ORDER && forall k :: 0 <= k < MAX_ORDER ==> free[k] == []
    ensures Sound(pages, free, tile, -1) && Maximal(free)
    ensures FreePages(free, |pages|) == {} && Weight(free, MAX_ORDER) == 0
  {
    hide Base, Buddy;
    forall p: nat
      ensures Base(p, 0) == p
    {
      SinglePage(p, p);
    }
    EmptyWeight(free, MAX_ORDER);
  }

  lemma {:induction false} EmptyWeight(free: FreeLists, k: nat)
    requires k <= |free| && forall j :: 0 <= j < k ==> free[j] == []
    ensures Weight(free, k) == 0
  {
    if k > 0 { EmptyWeight(free, k - 1); }
  }

  lemma SinglePage(p: nat, n: nat)
    ensures Base(p, 0) == p
    ensures p < n ==> Run(p, 0, n) == {p}
  {
    assert forall q: nat :: Base(q, 0) == q;
  }

  /** Releasing a block just allocated gives back the same free blocks and the same blocks in use. */
  method AllocThenRelease(ppm: Ppm, order: nat)
    requires ppm.Valid()
    modifies ppm, ppm.pages
    ensures ppm.Valid()
    ensures forall k: nat, h: nat :: k < MAX_ORDER ==> (h in ppm.free[k] <==> h in old(ppm.free[k]))
    ensures ppm.Blocks() == old(ppm.Blocks()) && ppm.freeNr == old(ppm.freeNr)
  {
    hide Base, Pow2, Buddy, Sound, Maximal, FreePages, Run, Weight;
    ghost var pages, free, tile := ppm.pages[..], ppm.free, ppm.tile;
    var r := ppm.AllocPages(order);
    if r.None? {
      return;
    }
    assert r.value in ppm.Blocks();
    ppm.ReleasePages(r.value);
    FreeBlocksDetermined(pages, free, tile, ppm.pages[..], ppm.free, ppm.tile);
  }

  lemma DoubleRun(k: nat)
    ensures Pow2(k + 1) == Pow2(k) + Pow2(k)
  {
  }

  /** Changing the reference count of a block in use changes nothing else. */
  lemma Owned(pages: seq<Page>, free: FreeLists, tile: seq<nat>, h: nat, page: Page)
    requires Sound(pages, free, tile, -1) && h < |pages| && pages[h].state != Free
    requires page.state == pages[h].state && page.order == pages[h].order
    ensures Sound(pages[h := page], free, tile, -1)
    ensures InUse(pages[h := page]) == InUse(pages)[h := page]
  {
    hide Base, Buddy;
    var pages' := pages[h := page];
    forall j: nat, g: nat | j < MAX_ORDER
      ensures g in free[j] <==> ListedFree(pages', tile, -1, j, g)
    {
      assert g in free[j] <==> ListedFree(pages, tile, -1, j, g);
    }
  }

  lemma AllocSize(pages: seq<Page>, free: FreeLists, tile: seq<nat>, x: nat, before: set<nat>)
    requires Sound(pages, free, tile, x) && x < |tile|
    requires Run(x, tile[x], |tile|) <= before && FreePages(free, |tile|) == before - Run(x, tile[x], |tile|)
    ensures |before| - Pow2(tile[x]) == |FreePages(free, |tile|)|
  {
    hide Base, Pow2;
    RunFits(|tile|, x, tile[x], LAST_ORDER);
    RunSize(x, tile[x], |tile|);
  }
}
