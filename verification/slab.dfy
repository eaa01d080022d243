/** The slab allocator of kernel/mm/kcm.c: three page lists over pages of equal blocks. */
module Slab {
  import opened Bitmap
  import opened Collections
  import opened SlabPages

  type Pages = map<nat, PageInfo>

  // ---------------------------------------------------------------- lists

  ghost predicate FreePage(pi: PageInfo)
  {
    !pi.active && !pi.busy && pi.refcount == 0
  }

  ghost predicate BusyPage(pi: PageInfo, n: nat)
  {
    !pi.active && pi.busy && Full(pi, n)
  }

  /** The first active page carries the flag; the others have a free block. */
  ghost predicate ActivePage(pi: PageInfo, first: bool, n: nat)
  {
    !pi.busy && pi.active == first && (!first ==> !Full(pi, n))
  }

  /** Every page is in exactly one list, the one its state asks for. */
  ghost predicate Listed(pages: Pages, free: seq<nat>, active: seq<nat>, busy: seq<nat>, n: nat)
  {
    && Apart(free, active, busy)
    && (forall p :: p in pages <==> p in free || p in active || p in busy)
    && (forall p :: p in free ==> FreePage(pages[p]))
    && (forall p :: p in active ==> ActivePage(pages[p], p == active[0], n))
    && (forall p :: p in busy ==> BusyPage(pages[p], n))
  }

  ghost predicate PagesOk(pages: Pages, n: nat)
  {
    forall p :: p in pages ==> p % PAGE == 0 && PageOk(pages[p], n)
  }

  lemma ApartReactivate(free: seq<nat>, active: seq<nat>, busy: seq<nat>, p: nat)
    requires Apart(free, active, busy) && p in busy
    ensures Apart(free, active + [p], Without(busy, p))
  {
    ApartRotate(free, active, busy);
    ApartCut(busy, free, active, p);
    ApartRotate(Without(busy, p), free, active);
    ApartAdd(active, Without(busy, p), free, p);
    ApartRotate(active + [p], Without(busy, p), free);
  }

  lemma ApartIdle(free: seq<nat>, active: seq<nat>, busy: seq<nat>, p: nat)
    requires Apart(free, active, busy) && p in active
    ensures Apart([p] + free, Without(active, p), busy)
  {
    ApartRotate(free, active, busy);
    ApartCut(active, busy, free, p);
    ApartRotate(Without(active, p), busy, free);
    ApartAdd(free, Without(active, p), busy, p);
  }

  lemma ApartRetire(free: seq<nat>, active: seq<nat>, busy: seq<nat>)
    requires Apart(free, active, busy) && |active| >= 2
    ensures Apart(free, active[1..], [active[0]] + busy)
  {
    ApartRotate(free, active, busy);
    ApartFirst(active, busy, free);
    ApartRotate(active[1..], busy, free);
    ApartAdd(busy, free, active[1..], active[0]);
    ApartRotate([active[0]] + busy, free, active[1..]);
  }

  /** The free page gets the end of the active list. */
  lemma Activate(pages: Pages, p: nat, free: seq<nat>, active: seq<nat>, busy: seq<nat>, n: nat)
    requires Listed(pages, [p] + free, active, busy, n) && PagesOk(pages, n) && active != [] && n > 0
    ensures Listed(pages, free, active + [p], busy, n)
  {
    assert p in [p] + free && PageOk(pages[p], n);
    EmptyPage(pages[p], n);
    hide PageOk;
    Dequeue([p] + free);
    assert ([p] + free)[1..] == free;
    assert Bit(pages[p].bitmap, 0);
  }

  function Flagged(pi: PageInfo, active: bool, busy: bool): PageInfo
  {
    PageInfo(pi.bitmap, pi.currentIndex, pi.refcount, active, busy)
  }

  lemma FlaggedOk(pi: PageInfo, active: bool, busy: bool, n: nat)
    ensures PageOk(pi, n) ==> PageOk(Flagged(pi, active, busy), n)
    ensures Full(Flagged(pi, active, busy), n) == Full(pi, n)
  {
  }

  lemma SetOk(pages: Pages, p: nat, pi: PageInfo, n: nat)
    requires PagesOk(pages, n) && p % PAGE == 0 && PageOk(pi, n)
    ensures PagesOk(pages[p := pi], n)
  {
  }

  /** The full first active page becomes busy, and the second one first. */
  lemma Retire(pages: Pages, free: seq<nat>, active: seq<nat>, busy: seq<nat>, n: nat)
    requires Listed(pages, free, active, busy, n) && PagesOk(pages, n) && |active| >= 2 && Full(pages[active[0]], n)
    ensures active[0] in pages && active[1] in pages && active[0] != active[1]
    ensures var pages' := pages[active[0] := Flagged(pages[active[0]], false,
      true)][active[1] := Flagged(pages[active[1]], true, false)];
      Listed(pages', free, active[1..], [active[0]] + busy, n) && PagesOk(pages', n)
  {
    var a, b := active[0], active[1];
    var pages' := pages[a := Flagged(pages[a], false, true)][b := Flagged(pages[b], true, false)];
    FlaggedOk(pages[a], false, true, n);
    FlaggedOk(pages[b], true, false, n);
    SetOk(pages, a, Flagged(pages[a], false, true), n);
    SetOk(pages[a := Flagged(pages[a], false, true)], b, Flagged(pages[b], true, false), n);
    Dequeue(active);
    ApartRetire(free, active, busy);
    assert a !in free && a !in busy && b !in free && b !in busy;
    hide PageOk, Full, Apart, PagesOk;
    assert active[1..][0] == b;
    assert forall p :: p in busy ==> pages'[p] == pages[p];
    assert forall p :: p in free ==> pages'[p] == pages[p];
    assert forall p :: p in active[1..] && p != b ==> pages'[p] == pages[p];
  }

  /** A change of one page that its list allows. */
  lemma Touch(pages: Pages, free: seq<nat>, active: seq<nat>, busy: seq<nat>, n: nat, p: nat, pi: PageInfo)
    requires Listed(pages, free, active, busy, n) && PagesOk(pages, n) && PageOk(pi, n)
    requires p in active && ActivePage(pi, p == active[0], n)
    ensures Listed(pages[p := pi], free, active, busy, n) && PagesOk(pages[p := pi], n)
  {
    hide PageOk, Full;
    var pages' := pages[p := pi];
    assert forall q :: q in busy ==> pages'[q] == pages[q];
    assert forall q :: q in free ==> pages'[q] == pages[q];
  }

  /** A busy page with a block back goes to the end of the active list. */
  lemma Reactivate(pages: Pages, free: seq<nat>, active: seq<nat>, busy: seq<nat>, n: nat, p: nat, pi: PageInfo)
    requires Listed(pages, free, active, busy, n) && PagesOk(pages, n) && PageOk(pi, n) && active != []
    requires p in busy && ActivePage(pi, false, n)
    ensures Listed(pages[p := pi], free, active + [p], Without(busy, p), n) && PagesOk(pages[p := pi], n)
  {
    ApartReactivate(free, active, busy, p);
    SetOk(pages, p, pi, n);
    assert p !in free && p !in active && p !in Without(busy, p);
    hide PageOk, Full, Apart, Without, PagesOk, FreePage, BusyPage;
    var pages' := pages[p := pi];
    assert forall q :: q in Without(busy, p) ==> pages'[q] == pages[q];
    assert forall q :: q in active ==> pages'[q] == pages[q];
    assert forall q :: q in free ==> pages'[q] == pages[q];
    assert (active + [p])[0] == active[0];
    forall q | q in active + [p]
      ensures q in pages' && ActivePage(pages'[q], q == active[0], n)
    {
      if q != p {
        assert q in active;
      }
    }
  }

  lemma WithoutFirst(active: seq<nat>, p: nat)
    requires p in active && NoDup(active) && p != active[0]
    ensures |Without(active, p)| == |active| - 1 && Without(active, p) != [] && Without(active, p)[0] == active[0]
  {
    assert active[0] in Without(active, p);
  }

  /** A page with no block left out goes from the active list to the free list. */
  lemma Idle(pages: Pages, free: seq<nat>, active: seq<nat>, busy: seq<nat>, n: nat, p: nat, pi: PageInfo)
    requires Listed(pages, free, active, busy, n) && PagesOk(pages, n) && PageOk(pi, n)
    requires p in active && p != active[0] && FreePage(pi)
    ensures Listed(pages[p := pi], [p] + free, Without(active, p), busy, n) && PagesOk(pages[p := pi], n)
    ensures Without(active, p) != []
  {
    WithoutFirst(active, p);
    ApartIdle(free, active, busy, p);
    SetOk(pages, p, pi, n);
    assert p !in free && p !in busy && p !in Without(active, p);
    hide PageOk, Full, Apart, Without, PagesOk, FreePage, BusyPage;
    var pages' := pages[p := pi];
    assert forall q :: q in Without(active, p) ==> pages'[q] == pages[q];
    assert forall q :: q in busy ==> pages'[q] == pages[q];
    assert forall q :: q in free ==> pages'[q] == pages[q];
  }

  lemma Populate(pages: Pages, free: seq<nat>, active: seq<nat>, busy: seq<nat>, n: nat, p: nat, pi: PageInfo)
    requires Listed(pages, free, active, busy, n) && PagesOk(pages, n) && PageOk(pi, n)
    requires p !in pages && p % PAGE == 0 && FreePage(pi)
    ensures Listed(pages[p := pi], [p] + free, active, busy, n) && PagesOk(pages[p := pi], n)
  {
    hide PageOk, Full;
    var pages' := pages[p := pi];
    assert forall q :: q in active ==> pages'[q] == pages[q];
    assert forall q :: q in busy ==> pages'[q] == pages[q];
    assert forall q :: q in free ==> pages'[q] == pages[q];
  }

  lemma Release(pages: Pages, p: nat, free: seq<nat>, active: seq<nat>, busy: seq<nat>, n: nat)
    requires Listed(pages, [p] + free, active, busy, n) && PagesOk(pages, n)
    ensures Listed(pages - {p}, free, active, busy, n) && PagesOk(pages - {p}, n)
    ensures p in pages && pages[p].refcount == 0
  {
    hide PageOk, Full;
    Dequeue([p] + free);
    assert ([p] + free)[1..] == free;
  }

  /** The pages still to come are distinct, page-aligned and not in use. */
  ghost predicate Supplied(supply: seq<nat>, pages: Pages)
  {
    NoDup(supply) && forall p :: p in supply ==> p % PAGE == 0 && p !in pages
  }

  lemma StillSupplied(supply: seq<nat>, pages: Pages, pages': Pages)
    requires Supplied(supply, pages) && pages'.Keys <= pages.Keys
    ensures Supplied(supply, pages')
  {
  }

  /** A page given back can be had again. */
  lemma SupplyBack(supply: seq<nat>, pages: Pages, p: nat)
    requires Supplied(supply, pages) && p in pages && p % PAGE == 0
    ensures Supplied(supply + [p], pages - {p})
  {
  }

  lemma SupplyNext(supply: seq<nat>, pages: Pages, pi: PageInfo)
    requires Supplied(supply, pages) && supply != []
    ensures supply[0] % PAGE == 0 && supply[0] !in pages && Supplied(supply[1..], pages[supply[0] := pi])
  {
    assert supply[0] in supply;
    Dequeue(supply);
  }

  /** What the lists say about one page. */
  lemma Member(pages: Pages, free: seq<nat>, active: seq<nat>, busy: seq<nat>, n: nat, p: nat)
    requires Listed(pages, free, active, busy, n) && PagesOk(pages, n)
    ensures p in active ==> p in pages && ActivePage(pages[p], p == active[0], n)
    ensures p in busy ==> p in pages
    ensures p in free ==> p in pages && FreePage(pages[p])
    ensures p in pages ==> p % PAGE == 0 && PageOk(pages[p], n)
    ensures p in pages && pages[p].busy ==> p in busy && !pages[p].active
    ensures p in pages && !pages[p].busy ==> p in active || p in free
    ensures p in pages && pages[p].active ==> p in active && p == active[0]
    ensures p in free ==> p !in active && p !in busy
  {
  }

  /** A page with a block out is not a free page. */
  lemma Occupied(pi: PageInfo, i: nat, n: nat)
    requires PageOk(pi, n) && i < n && !Bit(pi.bitmap, i)
    ensures !FreePage(pi)
  {
    if FreePage(pi) {
      EmptyPage(pi, n);
    }
  }

  // ---------------------------------------------------------------- blocks

  /** Block `i` of page `p` is handed out. */
  ghost predicate Out(pages: Pages, p: nat, i: int, n: nat)
  {
    p in pages && 0 <= i < n && !Bit(pages[p].bitmap, i)
  }

  ghost predicate LiveIn(pages: Pages, x: nat, n: nat, bs: nat)
  {
    bs > 0 && Out(pages, PageOf(x), IndexOf(x, bs), n) && x == Ptr(PageOf(x), IndexOf(x, bs), bs)
  }

  /** Nobody sees a change of pages that keeps their bitmaps, or a page that comes or goes with all blocks in. */
  ghost predicate SameBlocks(pages: Pages, pages': Pages, n: nat)
  {
    forall p, i :: Out(pages, p, i, n) == Out(pages', p, i, n)
  }

  lemma SameFlags(pages: Pages, pages': Pages, n: nat)
    requires pages'.Keys == pages.Keys && forall p :: p in pages ==> pages'[p].bitmap == pages[p].bitmap
    ensures SameBlocks(pages, pages', n)
  {
  }

  lemma Reflag(supply: seq<nat>, pages: Pages, p: nat, active: bool, busy: bool, n: nat)
    requires p in pages
    ensures var pages' := pages[p := Flagged(pages[p], active, busy)];
      SameBlocks(pages, pages', n) && (Supplied(supply, pages) ==> Supplied(supply, pages'))
  {
    SameFlags(pages, pages[p := Flagged(pages[p], active, busy)], n);
  }

  lemma SameTwice(a: Pages, b: Pages, c: Pages, n: nat)
    requires SameBlocks(a, b, n) && SameBlocks(b, c, n)
    ensures SameBlocks(a, c, n)
  {
  }

  /** The flags after `compute_active_page`. */
  function Retired(pages: Pages, active: seq<nat>): Pages
    requires |active| >= 2 && active[0] in pages && active[1] in pages
  {
    pages[active[0] := Flagged(pages[active[0]], false, true)][active[1] := Flagged(pages[active[1]], true, false)]
  }

  lemma RetireAll(pages: Pages, free: seq<nat>, active: seq<nat>, busy: seq<nat>, supply: seq<nat>, n: nat)
    requires Listed(pages, free, active, busy, n) && PagesOk(pages, n) && |active| >= 2 && Full(pages[active[0]], n)
    requires Supplied(supply, pages)
    ensures active[0] in pages && active[1] in pages && active[0] != active[1]
    ensures var pages' := Retired(pages, active);
      && Listed(pages', free, active[1..], [active[0]] + busy, n) && PagesOk(pages', n) && Supplied(supply, pages')
      && SameBlocks(pages, pages', n) && active[1] in pages' && !Full(pages'[active[1]], n)
  {
    var a, b := active[0], active[1];
    Retire(pages, free, active, busy, n);
    Member(pages, free, active, busy, n, b);
    hide Listed, PagesOk, Supplied, SameBlocks, PageOk, Full;
    FlaggedOk(pages[b], true, false, n);
    var mid := pages[a := Flagged(pages[a], false, true)];
    Reflag(supply, pages, a, false, true, n);
    Reflag(supply, mid, b, true, false, n);
    SameTwice(pages, mid, Retired(pages, active), n);
  }

  lemma SameLive(pages: Pages, pages': Pages, n: nat, bs: nat)
    requires SameBlocks(pages, pages', n)
    ensures forall x :: LiveIn(pages, x, n, bs) == LiveIn(pages', x, n, bs)
  {
  }

  /** Taking block `i` of page `p` makes exactly its pointer live. */
  lemma TakenLive(pages: Pages, p: nat, i: nat, pi: PageInfo, n: nat, bs: nat)
    requires Fits(bs, n) && p in pages && p % PAGE == 0 && i < n
    requires Bit(pages[p].bitmap, i) && forall k: nat :: Bit(pi.bitmap, k) == (Bit(pages[p].bitmap, k) && k != i)
    ensures !LiveIn(pages, Ptr(p, i, bs), n, bs)
    ensures forall x :: LiveIn(pages[p := pi], x, n, bs) <==> LiveIn(pages, x, n, bs) || x == Ptr(p, i, bs)
  {
    PtrRoundTrip(p, i, n, bs);
    hide Ptr, PageOf, IndexOf, Bit;
    forall q: nat, j: int
      ensures Out(pages[p := pi], q, j, n) <==> Out(pages, q, j, n) || (q == p && j == i)
    {
      if q == p && 0 <= j < n {
        assert Bit(pi.bitmap, j) == (Bit(pages[p].bitmap, j) && j != i);
      }
    }
  }

  lemma GivenLive(pages: Pages, p: nat, i: nat, pi: PageInfo, n: nat, bs: nat)
    requires Fits(bs, n) && p in pages && p % PAGE == 0 && i < n
    requires forall k: nat :: Bit(pi.bitmap, k) == (Bit(pages[p].bitmap, k) || k == i)
    ensures forall x :: LiveIn(pages[p := pi], x, n, bs) <==> LiveIn(pages, x, n, bs) && x != Ptr(p, i, bs)
  {
    PtrRoundTrip(p, i, n, bs);
    hide Ptr, PageOf, IndexOf, Bit;
    forall q: nat, j: int
      ensures Out(pages[p := pi], q, j, n) <==> Out(pages, q, j, n) && !(q == p && j == i)
    {
      if q == p && 0 <= j < n {
        assert Bit(pi.bitmap, j) == (Bit(pages[p].bitmap, j) || j == i);
      }
    }
  }

  /** Live blocks lie inside one page, past its header, and do not overlap. */
  lemma LiveApart(pages: Pages, x: nat, y: nat, n: nat, bs: nat)
    requires Fits(bs, n) && PagesOk(pages, n) && LiveIn(pages, x, n, bs) && LiveIn(pages, y, n, bs)
    ensures PageOf(x) + HEADER <= x && x + bs <= PageOf(x) + PAGE
    ensures x != y ==> x + bs <= y || y + bs <= x
  {
    var p, i, q, j := PageOf(x), IndexOf(x, bs), PageOf(y), IndexOf(y, bs);
    PtrRoundTrip(p, i, n, bs);
    if x != y {
      PtrsApart(p, i, q, j, n, bs);
    }
  }

  /** How many pages a free list of that length is to get. */
  function Refill(free: nat, min: nat, max: nat, supply: nat): nat
  {
    var middle := (min + max) / 2;
    var wanted := if free > min || free >= middle then 0 else middle - free;
    if wanted <= supply then wanted else supply
  }

  /** The first k pages of the supply have been put in front of the free list, one after the other. */
  ghost predicate Refilled(free: seq<nat>, supply: seq<nat>, k: nat, free': seq<nat>, supply': seq<nat>)
  {
    && k <= |supply| && supply' == supply[k..] && |free'| == |free| + k && free'[k..] == free
    && forall i :: 0 <= i < k ==> free'[i] == supply[k - 1 - i]
  }

  lemma RefilledNone(free: seq<nat>, supply: seq<nat>)
    ensures Refilled(free, supply, 0, free, supply)
  {
  }

  lemma RefilledLength(free: seq<nat>, supply: seq<nat>, k: nat, free': seq<nat>, supply': seq<nat>)
    requires Refilled(free, supply, k, free', supply')
    ensures |free'| == |free| + k && |supply'| == |supply| - k && (k == 0 ==> supply' == supply)
  {
  }

  lemma RefilledMore(free: seq<nat>, supply: seq<nat>, k: nat, free': seq<nat>, supply': seq<nat>)
    requires Refilled(free, supply, k, free', supply') && supply' != []
    ensures Refilled(free, supply, k + 1, [supply'[0]] + free', supply'[1..])
  {
    assert ([supply'[0]] + free')[k + 1..] == free'[k..];
  }

  class Kcm {
    var size: nat
    var blocksNr: nat
    var pages: Pages
    var freelist: seq<nat>
    var activelist: seq<nat>
    var busylist: seq<nat>
    var freePagesNr: nat
    var activePagesNr: nat
    var busyPagesNr: nat
    var freePagesMin: nat
    var freePagesMax: nat
    var supply: seq<nat>       // the pages `page_alloc` can return now; NULL when there is none

    /** Everything but the presence of an active page, which only `kcm_init` establishes. */
    ghost predicate Wf()
      reads this
    {
      && Fits(size, blocksNr)
      && Listed(pages, freelist, activelist, busylist, blocksNr) && PagesOk(pages, blocksNr)
      && freePagesNr == |freelist| && activePagesNr == |activelist| && busyPagesNr == |busylist|
      && Supplied(supply, pages)
    }

    ghost predicate Valid()
      reads this
    {
      Wf() && activelist != []
    }

    /** The block at address `x` is handed out. */
    ghost predicate Live(x: nat)
      reads this
    {
      LiveIn(pages, x, blocksNr, size)
    }

    /** The page allocator can give a page, or the watermarks keep `freelist_get` from asking for one. */
    ghost predicate CanGrow()
      reads this
    {
      supply != [] && (freePagesMin + freePagesMax) / 2 >= 1
    }

    /** The fields that only `kcm_init` sets. */
    ghost function Config(): (nat, nat, nat, nat)
      reads this
    {
      (size, blocksNr, freePagesMin, freePagesMax)
    }

    /** `kcm_init` up to the first page. The cache is well formed exactly when its blocks fit in a page. */
    constructor (objSize: nat, aligne: nat, min: nat, max: nat, grants: seq<nat>)
      requires 0 < objSize
      requires NoDup(grants) && forall p :: p in grants ==> p % PAGE == 0
      ensures Wf() <==> BlockSize(objSize, aligne) + TABLE <= PAGE && !(objSize <= 32 && 0 < aligne < 33)
      ensures pages == map[] && freelist == [] && activelist == [] && supply == grants
      ensures size >= objSize && freePagesMin == min && freePagesMax == max
    {
      size := BlockSize(objSize, aligne);
      pages := map[];
      freelist, activelist, busylist := [], [], [];
      freePagesNr, activePagesNr, busyPagesNr := 0, 0, 0;
      freePagesMin, freePagesMax := min, max;
      supply := grants;
      new;
      LayoutIff(objSize, aligne);
      blocksNr := BlocksNr(size);
    }

    /** `freelist_populate` */
    method FreelistPopulate() returns (ok: bool)
      requires Wf()
      modifies this
      ensures Wf() && Config() == old(Config()) && activelist == old(activelist) && busylist == old(busylist)
      ensures ok <==> old(supply) != []
      ensures if ok then freelist == [old(supply)[0]] + old(freelist) && supply == old(supply)[1..]
              else freelist == old(freelist) && supply == old(supply)
      ensures SameBlocks(old(pages), pages, blocksNr)
      ensures forall p :: p in old(pages) ==> p in pages && pages[p] == old(pages)[p]
    {
      hide Listed, PagesOk, Supplied, PageOk;
      if supply == [] {
        return false;
      }
      var page := supply[0];
      var pi := FreshPage(blocksNr);
      SupplyNext(supply, pages, pi);
      Populate(pages, freelist, activelist, busylist, blocksNr, page, pi);
      supply := supply[1..];
      pages := pages[page := pi];
      freelist := [page] + freelist;
      freePagesNr := freePagesNr + 1;
      return true;
    }

    /** `freelist_get`: at the low watermark the free list is first filled up half way to the high one, as far as pages
        can be had. The caller owns the first free page, which is in no list until it is put in one; none exactly when
        there is no free page and no way to get one. */
    method FreelistGet() returns (r: Option<nat>)
      requires Wf()
      modifies this
      ensures Config() == old(Config()) && activelist == old(activelist) && busylist == old(busylist)
      ensures r.None? <==> old(freelist == [] && !CanGrow())
      ensures r.None? ==> Wf() && supply == old(supply)
      ensures r.Some? ==> Taken(r.value)
      ensures Refilled(old(freelist), old(supply), Refill(old(|freelist|), freePagesMin, freePagesMax, old(|supply|)),
        if r.Some? then [r.value] + freelist else freelist, supply)
      ensures SameBlocks(old(pages), pages, blocksNr)
      ensures forall p :: p in old(pages) ==> p in pages && pages[p] == old(pages)[p]
    {
      hide Listed, PagesOk, Supplied, Fits, Refilled, SameBlocks;
      Replenish();
      if freePagesNr == 0 {
        return None;
      }
      var p := freelist[0];
      assert [p] + freelist[1..] == freelist;
      freelist := freelist[1..];
      freePagesNr := freePagesNr - 1;
      return Some(p);
    }

    /** The first half of `freelist_get`. */
    method Replenish()
      requires Wf()
      modifies this
      ensures Wf() && Config() == old(Config()) && activelist == old(activelist) && busylist == old(busylist)
      ensures Refilled(old(freelist), old(supply), Refill(old(|freelist|), freePagesMin, freePagesMax, old(|supply|)),
        freelist, supply)
      ensures freelist == [] <==> old(freelist == [] && !CanGrow())
      ensures freelist == [] ==> supply == old(supply)
      ensures SameBlocks(old(pages), pages, blocksNr)
      ensures forall p :: p in old(pages) ==> p in pages && pages[p] == old(pages)[p]
    {
      hide Listed, PagesOk, Supplied, Fits, Refilled, SameBlocks;
      RefilledNone(freelist, supply);
      SameFlags(pages, pages, blocksNr);
      ghost var k := 0;
      if freePagesNr <= freePagesMin {
        while freePagesNr < (freePagesMin + freePagesMax) / 2
          invariant Wf() && Config() == old(Config()) && activelist == old(activelist) && busylist == old(busylist)
          invariant |freelist| == old(|freelist|) + k && (k == 0 || |freelist| <= (freePagesMin + freePagesMax) / 2)
          invariant Refilled(old(freelist), old(supply), k, freelist, supply)
          invariant SameBlocks(old(pages), pages, blocksNr)
          invariant forall p :: p in old(pages) ==> p in pages && pages[p] == old(pages)[p]
        {
          ghost var before, had, left := pages, freelist, supply;
          var ok := FreelistPopulate();
          SameTwice(old(pages), before, pages, blocksNr);
          if !ok {
            break;
          }
          RefilledMore(old(freelist), old(supply), k, had, left);
          k := k + 1;
        }
      }
      RefilledLength(old(freelist), old(supply), k, freelist, supply);
    }

    /** The end of `kcm_init`: the cache has its first page, or none could be had. */
    method Start() returns (ok: bool)
      requires Wf() && activelist == []
      modifies this
      ensures ok <==> old(freelist != [] || CanGrow())
      ensures if ok then Valid() else supply == old(supply)
      ensures Config() == old(Config())
      ensures forall x :: Live(x) == old(Live(x))
    {
      hide Listed, PagesOk, Supplied, Fits, LiveIn, SameBlocks;
      var p := FreelistGet();
      SameLive(old(pages), pages, blocksNr, size);
      if p.None? {
        return false;
      }
      FirstPage(pages, p.value, freelist, busylist, blocksNr);
      activelist := [p.value];
      ghost var before := pages;
      pages := pages[p.value := Flagged(pages[p.value], true, false)];
      StillSupplied(supply, before, pages);
      SameFlags(before, pages, blocksNr);
      SameLive(before, pages, blocksNr, size);
      activePagesNr := activePagesNr + 1;
      return true;
    }

    /** The first half of `compute_active_page`: a second active page. */
    method AddActive() returns (ok: bool)
      requires Valid()
      modifies this
      ensures Valid() && Config() == old(Config())
      ensures busylist == old(busylist)
      ensures if ok then |activelist| == old(|activelist|) + 1 && old(activelist) < activelist
              else activelist == old(activelist)
      ensures Refilled(old(freelist), old(supply), Refill(old(|freelist|), freePagesMin, freePagesMax, old(|supply|)),
        if ok then [activelist[|activelist| - 1]] + freelist else freelist, supply)
      ensures ok <==> old(freelist != [] || CanGrow())
      ensures SameBlocks(old(pages), pages, blocksNr)
      ensures forall p :: p in old(pages) ==> p in pages && pages[p] == old(pages)[p]
    {
      hide Listed, PagesOk, Supplied, SameBlocks;
      var pinfoNew := FreelistGet();
      if pinfoNew.None? {
        return false;
      }
      Activate(pages, pinfoNew.value, freelist, activelist, busylist, blocksNr);
      activelist := activelist + [pinfoNew.value];
      activePagesNr := activePagesNr + 1;
      return true;
    }

    /** The second half of `compute_active_page`. */
    method RetireFirst() returns (p: nat)
      requires Valid() && |activelist| >= 2 && Full(pages[activelist[0]], blocksNr)
      modifies this
      ensures Valid() && Config() == old(Config()) && p == activelist[0]
      ensures p != old(activelist)[0] && !Full(pages[p], blocksNr)
      ensures activelist == old(activelist)[1..] && busylist == [old(activelist)[0]] + old(busylist)
      ensures freelist == old(freelist) && supply == old(supply)
      ensures SameBlocks(old(pages), pages, blocksNr)
    {
      hide Listed, PagesOk, Supplied, Fits, Full, SameBlocks, PageOk, Retired;
      RetireAll(pages, freelist, activelist, busylist, supply, blocksNr);
      pages := Retired(pages, activelist);
      busylist := [activelist[0]] + busylist;
      activelist := activelist[1..];
      busyPagesNr := busyPagesNr + 1;
      activePagesNr := activePagesNr - 1;
      p := activelist[0];
    }

    /** `compute_active_page`, when the first active page is full: another page takes its place, and it has a
        free block; the page stays exactly when there is no other. */
    method ComputeActivePage() returns (p: nat)
      requires Valid() && Full(pages[activelist[0]], blocksNr)
      modifies this
      ensures Valid() && Config() == old(Config()) && p == activelist[0]
      ensures p == old(activelist)[0] <==> old(|activelist| == 1 && freelist == [] && !CanGrow())
      ensures p != old(activelist)[0] ==> !Full(pages[p], blocksNr)
      ensures busylist == if p == old(activelist)[0] then old(busylist) else [old(activelist)[0]] + old(busylist)
      ensures if old(|activelist|) > 1
        then activelist == old(activelist)[1..] && freelist == old(freelist) && supply == old(supply)
        else
          && activelist == [p]
          && Refilled(old(freelist), old(supply), Refill(old(|freelist|), freePagesMin, freePagesMax, old(|supply|)),
               if p != old(activelist)[0] then [p] + freelist else freelist, supply)
      ensures SameBlocks(old(pages), pages, blocksNr)
    {
      hide Listed, PagesOk, Supplied, Fits, Full, PageOk;
      Member(pages, freelist, activelist, busylist, blocksNr, activelist[0]);
      if |activelist| == 1 {
        var ok := AddActive();
        if !ok {
          return activelist[0];
        }
      }
      p := RetireFirst();
    }

    /** `get_block` on the first active page. */
    method GetFrom() returns (ptr: Option<nat>)
      requires Valid()
      modifies this
      ensures Valid() && Config() == old(Config()) && supply == old(supply)
      ensures freelist == old(freelist) && activelist == old(activelist) && busylist == old(busylist)
      ensures ptr.None? <==> old(Full(pages[activelist[0]], blocksNr))
      ensures ptr.None? ==> pages == old(pages)
      ensures ptr.Some? ==> exists k ::
        && 0 <= k < blocksNr && ptr.value == Ptr(activelist[0], k, size)
        && old(Bit(pages[activelist[0]].bitmap, k) && Clear(pages[activelist[0]].bitmap, 0, k))
      ensures ptr.Some? ==> old(!Live(ptr.value)) && forall x :: Live(x) <==> old(Live(x)) || x == ptr.value
    {
      var p := activelist[0];
      hide Listed, PagesOk, Supplied, Fits, PageOk, Full, LiveIn;
      Member(pages, freelist, activelist, busylist, blocksNr, p);
      var index, pi := GetBlock(pages[p], blocksNr);
      if index.None? {
        return None;
      }
      Touch(pages, freelist, activelist, busylist, blocksNr, p, pi);
      TakenLive(pages, p, index.value, pi, blocksNr, size);
      StillSupplied(supply, pages, pages[p := pi]);
      pages := pages[p := pi];
      return Some(Ptr(p, index.value, size));
    }

    /** `kcm_alloc`: a block nobody had, and NULL exactly when every active page is full, there is no free page
        and the page allocator gives none. */
    method Alloc() returns (ptr: Option<nat>)
      requires Valid()
      modifies this
      ensures Valid() && Config() == old(Config())
      ensures ptr.None? <==>
        old(|activelist| == 1 && Full(pages[activelist[0]], blocksNr) && freelist == [] && !CanGrow())
      ensures ptr.None? ==> forall x :: Live(x) == old(Live(x))
      ensures ptr.Some? ==> old(!Live(ptr.value)) && forall x :: Live(x) <==> old(Live(x)) || x == ptr.value
      ensures ptr.Some? ==> exists k :: 0 <= k < blocksNr && ptr.value == Ptr(activelist[0], k, size)
    {
      var pinfo := activelist[0];
      ptr := GetFrom();
      if ptr.None? {
        var pinfoNew := ComputeActivePage();
        SameLive(old(pages), pages, blocksNr, size);
        if pinfoNew != pinfo {
          ptr := GetFrom();
        }
      }
    }

    /** `kcm_free` of a live block: exactly this block is free again. */
    method Free(ptr: nat)
      requires Valid() && Live(ptr)
      modifies this
      ensures Valid() && Config() == old(Config()) && supply == old(supply)
      ensures forall x :: Live(x) <==> old(Live(x)) && x != ptr
      ensures PageOf(ptr) in old(pages)
      ensures var p := PageOf(ptr);
        if old(pages)[p].busy then
          freelist == old(freelist) && activelist == old(activelist) + [p] && busylist == Without(old(busylist), p)
        else if !old(pages)[p].active && old(pages)[p].refcount == 1 then
          freelist == [p] + old(freelist) && activelist == Without(old(activelist), p) && busylist == old(busylist)
        else freelist == old(freelist) && activelist == old(activelist) && busylist == old(busylist)
    {
      var p := PageOf(ptr);
      var index: nat := IndexOf(ptr, size);
      Member(pages, freelist, activelist, busylist, blocksNr, p);
      Occupied(pages[p], index, blocksNr);
      var pi := PutBlock(pages[p], index, blocksNr);
      GivenLive(pages, p, index, pi, blocksNr, size);
      assert Bit(pi.bitmap, index) && !Full(pi, blocksNr);
      hide Listed, PagesOk, Supplied, Fits, PageOk, Full, LiveIn, SameBlocks;
      if pi.busy {
        LeaveBusy(p, pi);
      } else if !pi.active && pi.refcount == 0 {
        LeaveActive(p, pi);
      } else {
        Touch(pages, freelist, activelist, busylist, blocksNr, p, pi);
        StillSupplied(supply, pages, pages[p := pi]);
        pages := pages[p := pi];
      }
    }

    /** `put_block` into a busy page. */
    method LeaveBusy(p: nat, pi: PageInfo)
      requires Valid() && p in busylist && pi.busy && !pi.active && PageOk(pi, blocksNr) && !Full(pi, blocksNr)
      modifies this
      ensures Valid() && Config() == old(Config()) && supply == old(supply)
      ensures forall x :: Live(x) == LiveIn(old(pages)[p := pi], x, blocksNr, size)
      ensures freelist == old(freelist) && activelist == old(activelist) + [p] && busylist == Without(old(busylist), p)
    {
      hide Listed, PagesOk, Supplied, Fits, PageOk, Full, LiveIn, SameBlocks, Without;
      FlaggedOk(pi, pi.active, false, blocksNr);
      Member(pages, freelist, activelist, busylist, blocksNr, p);
      var released := Flagged(pi, pi.active, false);
      var pages' := pages[p := released];
      Reactivate(pages, freelist, activelist, busylist, blocksNr, p, released);
      SameFlags(pages[p := pi], pages', blocksNr);
      SameLive(pages[p := pi], pages', blocksNr, size);
      StillSupplied(supply, pages, pages');
      pages := pages';
      busylist := Without(busylist, p);
      busyPagesNr := busyPagesNr - 1;
      activelist := activelist + [p];
      activePagesNr := activePagesNr + 1;
    }

    /** `put_block` of the last block of an active page that is not the first. */
    method LeaveActive(p: nat, pi: PageInfo)
      requires Valid() && p in activelist && p != activelist[0] && FreePage(pi) && PageOk(pi, blocksNr)
      modifies this
      ensures Valid() && Config() == old(Config()) && supply == old(supply) && pages == old(pages)[p := pi]
      ensures freelist == [p] + old(freelist) && activelist == Without(old(activelist), p) && busylist == old(busylist)
    {
      hide Listed, PagesOk, Supplied, Fits, PageOk, Full, LiveIn, SameBlocks, Without, FreePage;
      Member(pages, freelist, activelist, busylist, blocksNr, p);
      Idle(pages, freelist, activelist, busylist, blocksNr, p, pi);
      StillSupplied(supply, pages, pages[p := pi]);
      pages := pages[p := pi];
      activelist := Without(activelist, p);
      freelist := [p] + freelist;
      freePagesNr := freePagesNr + 1;
      activePagesNr := activePagesNr - 1;
    }

    /** `kcm_release`: pages go back to the page allocator until the low watermark; none holds a live block. */
    method ReleaseFree() returns (released: seq<nat>)
      requires Valid()
      modifies this
      ensures Valid() && Config() == old(Config()) && activelist == old(activelist) && busylist == old(busylist)
      ensures old(freelist) == released + freelist
      ensures supply == old(supply) + released
      ensures freePagesNr == if old(freePagesNr) <= freePagesMin then old(freePagesNr) else freePagesMin
      ensures forall x :: Live(x) == old(Live(x))
    {
      hide Listed, PagesOk, Supplied, Fits, PageOk, Full;
      released := [];
      while freelist != [] && freePagesNr > freePagesMin
        invariant Valid() && Config() == old(Config()) && activelist == old(activelist) && busylist == old(busylist)
        invariant old(freelist) == released + freelist && supply == old(supply) + released
        invariant released != [] ==> freePagesNr >= freePagesMin
        invariant SameBlocks(old(pages), pages, blocksNr)
        decreases freelist
      {
        var p := freelist[0];
        assert [p] + freelist[1..] == freelist;
        Member(pages, freelist, activelist, busylist, blocksNr, p);
        Release(pages, p, freelist[1..], activelist, busylist, blocksNr);
        EmptyPage(pages[p], blocksNr);
        SupplyBack(supply, pages, p);
        freelist := freelist[1..];
        freePagesNr := freePagesNr - 1;
        pages := pages - {p};
        released := released + [p];
        supply := supply + [p];
      }
      SameLive(old(pages), pages, blocksNr, size);
    }

    /** Pages that others give back to the page allocator. */
    method Restock(grants: seq<nat>)
      requires Valid() && Supplied(supply + grants, pages)
      modifies this`supply
      ensures Valid() && supply == old(supply) + grants && forall x :: Live(x) == old(Live(x))
    {
      supply := supply + grants;
    }

    /** As `Wf`, with the page `p` unlinked from the head of the free list. */
    ghost predicate Taken(p: nat)
      reads this
    {
      && Fits(size, blocksNr)
      && Listed(pages, [p] + freelist, activelist, busylist, blocksNr) && PagesOk(pages, blocksNr)
      && freePagesNr == |freelist| && activePagesNr == |activelist| && busyPagesNr == |busylist|
      && Supplied(supply, pages)
    }

  }

  lemma FirstPage(pages: Pages, p: nat, free: seq<nat>, busy: seq<nat>, n: nat)
    requires Listed(pages, [p] + free, [], busy, n) && PagesOk(pages, n)
    ensures p in pages
    ensures var pages' := pages[p := Flagged(pages[p], true, false)];
      Listed(pages', free, [p], busy, n) && PagesOk(pages', n)
  {
    var pages' := pages[p := Flagged(pages[p], true, false)];
    assert p in [p] + free;
    FlaggedOk(pages[p], true, false, n);
    SetOk(pages, p, Flagged(pages[p], true, false), n);
    ApartFirst([p] + free, [], busy);
    assert ([p] + free)[1..] == free;
    ApartRotate(free, [], busy);
    ApartAdd([], busy, free, p);
    assert [p] == [] + [p];
    ApartRotate([p], busy, free);
    hide PageOk, Full, PagesOk, Apart, FreePage, BusyPage;
    assert forall q :: q in busy ==> pages'[q] == pages[q];
    assert forall q :: q in free ==> pages'[q] == pages[q];
  }

  /** A page holds at least one block, and all its blocks fit, exactly for the sizes from 33 bytes to a page without
      its header, or up to 32 bytes with the larger alignment. */
  lemma LayoutIff(size: nat, aligne: nat)
    requires 0 < size
    ensures var bs := BlockSize(size, aligne);
      && bs > 0 && BlocksNr(bs) >= 0
      && (Fits(bs, BlocksNr(bs)) <==> bs + TABLE <= PAGE && !(size <= 32 && 0 < aligne < 33))
  {
    var bs := BlockSize(size, aligne);
    Rounded(size, aligne);
    if bs <= PAGE {
      LayoutFits(size, aligne);
      if bs + TABLE <= PAGE {
        if bs > 32 { SomeBlocks(bs); }
      } else {
        OneTooLarge(bs);
      }
    } else {
      NoBlock(bs);
    }
    hide BlocksNr, BlockSize;
  }

  lemma OneTooLarge(bs: nat)
    requires PAGE - TABLE < bs <= PAGE && bs % 32 == 0
    ensures BlocksNr(bs) == 0
  {
    assert bs == 4064 || bs == 4096;
  }

  lemma NoBlock(bs: nat)
    requires bs > PAGE
    ensures BlocksNr(bs) == 0
  {
  }

  lemma SomeBlocks(bs: nat)
    requires 32 < bs && bs + TABLE <= PAGE
    ensures BlocksNr(bs) >= 1
  {
    var q := PAGE / bs;
    assert q * bs <= PAGE < q * bs + bs;
    assert q <= 1 ==> q * bs <= bs;
  }

  /** With watermarks 0 and 1 the cache never asks for a page, and cannot be set up, though pages are to be had. */
  method NeverAsks() returns (kcm: Kcm, ok: bool)
    ensures fresh(kcm) && !ok && kcm.supply != []
  {
    assert BlockSize(64, 0) == 64;
    kcm := new Kcm(64, 0, 0, 1, [PAGE]);
    ok := kcm.Start();
  }
}
