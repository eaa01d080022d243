/** The state of the per-cluster physical page manager (kernel/mm/ppm.c) as values: page table, free
    lists, and the tiling of the page table by blocks that they must agree on. */
module BuddyTiling {
  import opened BuddyMath
  import opened Collections

  const MAX_ORDER: nat := 10
  const LAST_ORDER: nat := MAX_ORDER - 1

  /** `page_state_t`; the states from Invalid to Locked belong to the owner of the page. */
  datatype PageState = Init | Reserved | Free | Invalid | Valid | LockedIo | Locked

  /** The fields of `struct page_s` that the allocator reads or writes. */
  datatype Page = Page(state: PageState, order: nat, refcount: nat)

  type FreeLists = seq<seq<nat>>

  /** `tile[p]` is the order of the block that page p belongs to. Blocks are aligned, so the block
      is the run of that order around p, and all its pages must agree on the order. */
  ghost predicate Tiled(tile: seq<nat>)
  {
    && Base(|tile|, LAST_ORDER) == |tile|
    && (forall p :: 0 <= p < |tile| ==> tile[p] <= LAST_ORDER)
    && (forall p: nat, q: nat {:trigger Base(q, tile[p])} ::
          p < |tile| && q < |tile| && Base(q, tile[p]) == Base(p, tile[p]) ==> tile[q] == tile[p])
  }

  /** Page h is the first page of its block. */
  ghost predicate Head(tile: seq<nat>, h: nat)
  {
    h < |tile| && Base(h, tile[h]) == h
  }

  /** Block h is free: it heads a block of order k, it is not the block in flight, and its first page says so. */
  ghost predicate ListedFree(pages: seq<Page>, tile: seq<nat>, x: int, k: nat, h: nat)
    requires |pages| == |tile|
  {
    Head(tile, h) && h != x && tile[h] == k && pages[h].state == Free
  }

  /** The page table, the free lists and the tiling agree, except that block x (if any) is in flight:
      it is in no list, and its first page's order field is not yet accurate.
      Pages inside a block, allocated or not, all carry the mark Free, and an arbitrary stale order. */
  ghost predicate Sound(pages: seq<Page>, free: FreeLists, tile: seq<nat>, x: int)
  {
    && |pages| == |tile| && |free| == MAX_ORDER
    && Tiled(tile)
    && (x != -1 ==> 0 <= x && Head(tile, x))
    && (forall h: nat :: Head(tile, h) && h != x ==> pages[h].order == tile[h])
    && (forall p: nat :: p < |pages| && pages[p].state != Free ==> Head(tile, p) && p != x)
    && (forall p: nat :: p < |pages| && pages[p].state == Free ==> pages[p].refcount == 0)
    && (forall k :: 0 <= k < MAX_ORDER ==> NoDup(free[k]))
    && (forall k: nat, h: nat {:trigger h in free[k]} {:trigger ListedFree(pages, tile, x, k, h)} ::
          k < MAX_ORDER ==> (h in free[k] <==> ListedFree(pages, tile, x, k, h)))
  }

  /** The blocks that are in use: allocated, reserved, or not yet released at boot. */
  ghost function InUse(pages: seq<Page>): map<nat, Page>
  {
    map p: nat | p < |pages| && pages[p].state != Free :: pages[p]
  }

  /** No two buddies of the same order are both free. */
  ghost predicate Maximal(free: FreeLists)
    requires |free| == MAX_ORDER
  {
    forall k: nat, h: nat :: k < LAST_ORDER && h in free[k] ==> Buddy(h, k) !in free[k]
  }

  /** The pages of the run of order k around b. */
  ghost function Run(b: nat, k: nat, n: nat): set<nat>
  {
    set p: nat | p < n && Base(p, k) == b
  }

  ghost predicate FreePage(free: FreeLists, p: nat)
    requires |free| == MAX_ORDER
  {
    exists k: nat :: k < MAX_ORDER && Base(p, k) in free[k]
  }

  /** The set of free pages, read off the free lists alone. */
  ghost function FreePages(free: FreeLists, n: nat): set<nat>
    requires |free| == MAX_ORDER
  {
    set p: nat | p < n && FreePage(free, p)
  }

  // ---------------------------------------------------------------- tilings

  /** The block around a page: it fits in the table and its first page is a head of the same order. */
  lemma BlockOf(tile: seq<nat>, p: nat)
    requires Tiled(tile) && p < |tile|
    ensures var h := Base(p, tile[p]);
      h <= p && h + Pow2(tile[p]) <= |tile| && Head(tile, h) && tile[h] == tile[p]
  {
    hide Base, Pow2;
    RunFits(|tile|, p, tile[p], LAST_ORDER);
    BaseBounds(p, tile[p]);
    BaseIdempotent(p, tile[p]);
  }

  /** The safety argument of coalescing: the buddy of a block is never inside another block, because a
      larger block around it would contain both, and a smaller one starts at it. */
  lemma BuddyIsHead(tile: seq<nat>, x: nat)
    requires Tiled(tile) && Head(tile, x) && tile[x] < LAST_ORDER
    ensures var y := Buddy(x, tile[x]); Head(tile, y) && tile[y] <= tile[x]
  {
    hide Base, Pow2, Buddy;
    var c := tile[x];
    var y := Buddy(x, c);
    BuddyHalf(x, c);
    RunFits(|tile|, x, c + 1, LAST_ORDER);
    BaseBounds(y, c);
    assert y < |tile|;
    if tile[y] > c {
      SameRunUp(x, y, c + 1, tile[y]);
    }
    AlignedDown(y, tile[y], c);
  }

  /** Retile the run of order k at b with blocks of order v. */
  ghost function Retile(tile: seq<nat>, b: nat, k: nat, v: nat): (t: seq<nat>)
    ensures |t| == |tile|
    ensures forall p: nat :: p < |t| ==> t[p] == if Base(p, k) == b then v else tile[p]
  {
    seq(|tile|, p requires 0 <= p < |tile| => if Base(p, k) == b then v else tile[p])
  }

  /** Both halves of the run around block x have blocks of the same order as x. */
  lemma HalvesTiled(tile: seq<nat>, x: nat, p: nat)
    requires Tiled(tile) && Head(tile, x) && tile[x] < LAST_ORDER
    requires var y := Buddy(x, tile[x]); y < |tile| && tile[y] == tile[x]
    requires p < |tile| && Base(p, tile[x] + 1) == Base(x, tile[x] + 1)
    ensures tile[p] == tile[x]
  {
    hide Base, Pow2, Buddy;
    var c := tile[x];
    var y := Buddy(x, c);
    BuddyHalf(x, c);
    BaseHalf(p, c);
    BaseHalf(x, c);
    assert Base(p, c) == x || Base(p, c) == y;
    assert Base(x, tile[x]) == x && Base(y, tile[y]) == y;
  }

  /** Joining the two halves of a run into one block. */
  lemma MergeTiled(tile: seq<nat>, x: nat)
    requires Tiled(tile) && Head(tile, x) && tile[x] < LAST_ORDER
    requires var y := Buddy(x, tile[x]); y < |tile| && tile[y] == tile[x]
    ensures var c := tile[x]; var b := Base(x, c + 1); var t := Retile(tile, b, c + 1, c + 1);
      && Tiled(t) && Head(t, b) && t[b] == c + 1
      && (forall h: nat :: Head(t, h) && h != b <==> Head(tile, h) && h != x && h != Buddy(x, c))
  {
    hide Base, Pow2, Buddy;
    var c := tile[x];
    var y := Buddy(x, c);
    var b := Base(x, c + 1);
    var t := Retile(tile, b, c + 1, c + 1);
    BuddyHalf(x, c);
    forall p: nat, q: nat | p < |t| && q < |t| && Base(q, t[p]) == Base(p, t[p])
      ensures t[q] == t[p]
    {
      if Base(q, c + 1) == b && Base(p, c + 1) != b {
        HalvesTiled(tile, x, q);
        SameRunUp(p, q, c, c + 1);
      }
    }
    BaseBounds(x, c + 1);
    BaseIdempotent(x, c + 1);
    forall h: nat
      ensures Head(t, h) && h != b <==> Head(tile, h) && h != x && h != y
    {
      if h < |tile| && Base(h, c + 1) == b && Head(tile, h) {
        HalvesTiled(tile, x, h);
        BaseHalf(h, c);
        BaseHalf(x, c);
      }
    }
  }

  /** Cutting a block into two halves. */
  lemma SplitTiled(tile: seq<nat>, x: nat)
    requires Tiled(tile) && Head(tile, x) && tile[x] > 0
    ensures var c := tile[x] - 1; var r := x + Pow2(c); var t := Retile(tile, x, c + 1, c);
      && Tiled(t) && Head(t, x) && t[x] == c && Head(t, r) && t[r] == c
      && (forall h: nat :: Head(t, h) && h != r <==> Head(tile, h))
      && Buddy(r, c) == x && !Head(tile, r)
  {
    hide Base, Pow2, Buddy;
    var c := tile[x] - 1;
    var r := x + Pow2(c);
    var t := Retile(tile, x, c + 1, c);
    AlignedDown(x, c, c + 1);
    BuddyHalf(x, c);
    RunFits(|tile|, x, c + 1, LAST_ORDER);
    forall p: nat, q: nat | p < |t| && q < |t| && Base(q, t[p]) == Base(p, t[p])
      ensures t[q] == t[p]
    {
      if Base(p, c + 1) == x {
        SameRunUp(p, q, c, c + 1);
      }
    }
    forall h: nat
      ensures Head(t, h) && h != r <==> Head(tile, h)
    {
      if h < |tile| && Base(h, c + 1) == x {
        BaseHalf(h, c);
        assert tile[h] == c + 1;
      }
    }
  }

  // ---------------------------------------------------------------- free pages

  /** A free page lies in exactly one listed block, the one the tiling gives it. */
  lemma FreeBlockOf(pages: seq<Page>, free: FreeLists, tile: seq<nat>, x: int, p: nat, k: nat)
    requires Sound(pages, free, tile, x) && p < |tile|
    requires k < MAX_ORDER && Base(p, k) in free[k]
    ensures tile[p] == k
  {
    hide Base, Pow2, Buddy;
    var h := Base(p, k);
    assert ListedFree(pages, tile, x, k, h);
    BaseIdempotent(p, k);
    assert Base(p, tile[h]) == Base(h, tile[h]);
  }

  /** Maximality: an aligned run of free pages lies inside a single listed block. */
  lemma {:induction false} FreeRunInBlock(pages: seq<Page>, free: FreeLists, tile: seq<nat>, b: nat, k: nat)
    returns (j: nat)
    requires Sound(pages, free, tile, -1) && Maximal(free)
    requires k <= LAST_ORDER && b < |tile| && Base(b, k) == b
    requires Run(b, k, |tile|) <= FreePages(free, |tile|)
    ensures k <= j < MAX_ORDER && Base(b, j) in free[j]
    decreases k
  {
    hide Base, Pow2, Buddy;
    if k == 0 {
      assert b in Run(b, k, |tile|);
      assert FreePage(free, b);
      j :| 0 <= j < MAX_ORDER && Base(b, j) in free[j];
    } else {
      var c := Buddy(b, k - 1);
      AlignedDown(b, k - 1, k);
      BuddyHalf(b, k - 1);
      RunFits(|tile|, b, k, LAST_ORDER);
      BaseBounds(c, k - 1);
      forall p | p in Run(b, k - 1, |tile|) + Run(c, k - 1, |tile|)
        ensures p in FreePages(free, |tile|)
      {
        BaseHalf(p, k - 1);
        assert p in Run(b, k, |tile|);
      }
      j := FreeRunInBlock(pages, free, tile, b, k - 1);
      if j == k - 1 {
        var i := FreeRunInBlock(pages, free, tile, c, k - 1);
        if i > k - 1 {
          SameRunUp(b, c, k, i);
          j := i;
        }
      }
    }
  }

  /** The free lists are a function of the free pages, up to the order within each list. */
  lemma FreeBlocksDetermined(pages: seq<Page>, free: FreeLists, tile: seq<nat>,
                             pages': seq<Page>, free': FreeLists, tile': seq<nat>)
    requires Sound(pages, free, tile, -1) && Maximal(free)
    requires Sound(pages', free', tile', -1) && Maximal(free')
    requires |tile| == |tile'| && FreePages(free, |tile|) == FreePages(free', |tile|)
    ensures forall k: nat, h: nat :: k < MAX_ORDER ==> (h in free[k] <==> h in free'[k])
  {
    forall k: nat, h: nat | k < MAX_ORDER
      ensures h in free[k] <==> h in free'[k]
    {
      if h in free[k] { SameBlock(pages, free, tile, pages', free', tile', k, h); }
      if h in free'[k] { SameBlock(pages', free', tile', pages, free, tile, k, h); }
    }
  }

  lemma SameBlock(pages: seq<Page>, free: FreeLists, tile: seq<nat>,
                  pages': seq<Page>, free': FreeLists, tile': seq<nat>, k: nat, h: nat)
    requires Sound(pages, free, tile, -1) && Maximal(free)
    requires Sound(pages', free', tile', -1) && Maximal(free')
    requires |tile| == |tile'| && FreePages(free, |tile|) == FreePages(free', |tile|)
    requires k < MAX_ORDER && h in free[k]
    ensures h in free'[k]
  {
    hide Base, Pow2, Buddy;
    assert ListedFree(pages, tile, -1, k, h);
    RunFree(free, h, k, |tile|);
    var j := FreeRunInBlock(pages', free', tile', h, k);
    var g := Base(h, j);
    BaseBounds(h, j);
    BaseIdempotent(h, j);
    RunFree(free', g, j, |tile|);
    var i := FreeRunInBlock(pages, free, tile, g, j);
    BaseNest(h, j, i);
    FreeBlockOf(pages, free, tile, -1, h, i);
  }

  lemma RunFree(free: FreeLists, h: nat, k: nat, n: nat)
    requires |free| == MAX_ORDER && k < MAX_ORDER && h in free[k]
    ensures Run(h, k, n) <= FreePages(free, n)
  {
    hide Base;
    forall p | p in Run(h, k, n)
      ensures p in FreePages(free, n)
    {
      assert Base(p, k) in free[k];
    }
  }

  // ---------------------------------------------------------------- list operations

  lemma Unlink(pages: seq<Page>, free: FreeLists, tile: seq<nat>, x: int, k: nat, y: nat)
    requires Sound(pages, free, tile, x) && k < MAX_ORDER && y in free[k]
    ensures var free' := free[k := Without(free[k], y)];
      && Run(y, k, |tile|) <= FreePages(free, |tile|)
      && FreePages(free', |tile|) == FreePages(free, |tile|) - Run(y, k, |tile|)
      && (Maximal(free) ==> Maximal(free'))
  {
    hide Base, Pow2, Buddy;
    var n := |tile|;
    var free' := free[k := Without(free[k], y)];
    RunFree(free, y, k, n);
    forall p | p in FreePages(free', n)
      ensures p in FreePages(free, n) && p !in Run(y, k, n)
    {
      var j: nat :| j < MAX_ORDER && Base(p, j) in free'[j];
      FreeBlockOf(pages, free, tile, x, p, j);
      if Base(p, k) == y { FreeBlockOf(pages, free, tile, x, p, k); }
    }
    forall p | p in FreePages(free, n) && p !in Run(y, k, n)
      ensures p in FreePages(free', n)
    {
      var j: nat :| j < MAX_ORDER && Base(p, j) in free[j];
      assert Base(p, j) in free'[j];
    }
  }

  lemma Link(free: FreeLists, k: nat, h: nat, n: nat)
    requires |free| == MAX_ORDER && k < MAX_ORDER
    requires Base(h, k) == h && forall g :: g in free[k] ==> Base(g, k) == g
    ensures var free' := free[k := [h] + free[k]];
      && FreePages(free', n) == FreePages(free, n) + Run(h, k, n)
      && (Maximal(free) && (k < LAST_ORDER ==> Buddy(h, k) !in free[k]) ==> Maximal(free'))
  {
    hide Base, Pow2, Buddy;
    var free' := free[k := [h] + free[k]];
    forall p | p in FreePages(free', n)
      ensures p in FreePages(free, n) + Run(h, k, n)
    {
      var j: nat :| j < MAX_ORDER && Base(p, j) in free'[j];
      if p !in Run(h, k, n) { assert Base(p, j) in free[j]; }
    }
    forall p | p in FreePages(free, n)
      ensures p in FreePages(free', n)
    {
      var j: nat :| j < MAX_ORDER && Base(p, j) in free[j];
      assert Base(p, j) in free'[j];
    }
    RunFree(free', h, k, n);
    if Maximal(free) && (k < LAST_ORDER ==> Buddy(h, k) !in free[k]) {
      forall j: nat, g: nat | j < LAST_ORDER && g in free'[j]
        ensures Buddy(g, j) !in free'[j]
      {
        if j == k { BuddyHalf(g, k); BuddyHalf(h, k); }
      }
    }
  }

  // ---------------------------------------------------------------- one step of each loop

  /** Coalescing one level: block x in flight absorbs its buddy. */
  lemma MergeSound(pages: seq<Page>, free: FreeLists, tile: seq<nat>, x: nat)
    requires Sound(pages, free, tile, x) && tile[x] < LAST_ORDER
    requires var y := Buddy(x, tile[x]); y < |pages| && pages[y].state == Free && pages[y].order == tile[x]
    ensures var c := tile[x]; var y := Buddy(x, c); var b := Base(x, c + 1);
      var free' := free[c := Without(free[c], y)];
      && y in free[c]
      && Sound(pages[y := pages[y].(order := 0)], free', Retile(tile, b, c + 1, c + 1), b)
      && Run(x, c, |tile|) + Run(y, c, |tile|) == Run(b, c + 1, |tile|)
  {
    hide Base, Pow2, Buddy;
    var c := tile[x];
    var y := Buddy(x, c);
    var b := Base(x, c + 1);
    var t := Retile(tile, b, c + 1, c + 1);
    var pages' := pages[y := pages[y].(order := 0)];
    var free' := free[c := Without(free[c], y)];
    BuddyHalf(x, c);
    BuddyIsHead(tile, x);
    assert tile[y] == c;
    assert ListedFree(pages, tile, x, c, y);
    MergeTiled(tile, x);
    forall h: nat | Head(t, h) && h != b
      ensures t[h] == tile[h]
    {
      assert Head(tile, h);
      if Base(h, c + 1) == b { HalvesTiled(tile, x, h); BaseHalf(h, c); BaseHalf(x, c); }
    }
    forall k: nat, h: nat | k < MAX_ORDER
      ensures h in free'[k] <==> ListedFree(pages', t, b, k, h)
    {
      assert h in free[k] <==> ListedFree(pages, tile, x, k, h);
    }
    assert forall p: nat | p < |tile| :: Base(p, c + 1) == b <==> Base(p, c) == x || Base(p, c) == y by {
      forall p: nat | p < |tile|
        ensures Base(p, c + 1) == b <==> Base(p, c) == x || Base(p, c) == y
      {
        BaseHalf(p, c);
        BaseHalf(x, c);
      }
    }
  }

  /** The block in flight keeps its lower half; the upper half is listed. */
  lemma SplitSound(pages: seq<Page>, free: FreeLists, tile: seq<nat>, x: nat)
    requires Sound(pages, free, tile, x) && tile[x] > 0
    ensures var c := tile[x] - 1; var r := x + Pow2(c);
      && r < |pages| && Buddy(r, c) == x && Base(r, c) == r
      && Sound(pages[r := pages[r].(order := c)], free[c := [r] + free[c]], Retile(tile, x, c + 1, c), x)
      && Run(x, c, |tile|) + Run(r, c, |tile|) == Run(x, c + 1, |tile|)
      && Run(x, c, |tile|) !! Run(r, c, |tile|)
  {
    hide Base, Pow2, Buddy;
    var c := tile[x] - 1;
    var r := x + Pow2(c);
    var t := Retile(tile, x, c + 1, c);
    SplitTiled(tile, x);
    var pages' := pages[r := pages[r].(order := c)];
    var free' := free[c := [r] + free[c]];
    assert pages[r].state == Free;
    forall h: nat | Head(t, h) && h != r
      ensures h != x ==> t[h] == tile[h]
    {
      assert Head(tile, h);
      if Base(h, c + 1) == x { assert tile[h] == c + 1; }
    }
    forall k: nat, h: nat | k < MAX_ORDER
      ensures h in free'[k] <==> ListedFree(pages', t, x, k, h)
    {
      assert h in free[k] <==> ListedFree(pages, tile, x, k, h);
    }
    assert r !in free[c];
    AlignedDown(x, c, c + 1);
    BuddyHalf(x, c);
    assert forall p: nat | p < |tile| :: Base(p, c + 1) == x <==> Base(p, c) == x || Base(p, c) == r by {
      forall p: nat | p < |tile|
        ensures Base(p, c + 1) == x <==> Base(p, c) == x || Base(p, c) == r
      {
        BaseHalf(p, c);
        BaseHalf(x, c);
        BaseHalf(r, c);
      }
    }
  }

  // ---------------------------------------------------------------- whole steps, as the allocator takes them

  /** A block in use holds no free page; marking it free puts it in flight. */
  lemma StartFree(pages: seq<Page>, free: FreeLists, tile: seq<nat>, h: nat)
    requires Sound(pages, free, tile, -1)
    requires h < |pages| && pages[h].state != Free
    ensures var k := pages[h].order; var pages' := pages[h := Page(Free, k, 0)];
      && k <= LAST_ORDER && tile[h] == k && Base(h, k) == h && h + Pow2(k) <= |pages|
      && Run(h, k, |pages|) !! FreePages(free, |pages|)
      && Sound(pages', free, tile, h)
      && InUse(pages') == InUse(pages) - {h}
  {
    hide Base, Pow2, Buddy;
    var k := pages[h].order;
    RunFits(|pages|, h, k, LAST_ORDER);
    forall p | p in FreePages(free, |pages|)
      ensures p !in Run(h, k, |pages|)
    {
      var j: nat :| j < MAX_ORDER && Base(p, j) in free[j];
      FreeBlockOf(pages, free, tile, -1, p, j);
    }
    var pages' := pages[h := Page(Free, k, 0)];
    forall j: nat, g: nat | j < MAX_ORDER
      ensures g in free[j] <==> ListedFree(pages', tile, h, j, g)
    {
      assert g in free[j] <==> ListedFree(pages, tile, -1, j, g);
    }
  }

  /** The test of the coalescing loop, and one turn of it. */
  lemma StepFree(pages: seq<Page>, free: FreeLists, tile: seq<nat>, x: nat, c: nat)
    requires Sound(pages, free, tile, x) && x < |tile| && tile[x] == c && c < LAST_ORDER
    ensures var y := Buddy(x, c);
      && y < |pages|
      && (y in free[c] <==> pages[y].state == Free && pages[y].order == c)
      && (y in free[c] ==>
            var b := if y < x then y else x;
            var free' := free[c := Without(free[c], y)];
            var pages' := pages[y := pages[y].(order := 0)];
            var tile' := Retile(tile, b, c + 1, c + 1);
            && Sound(pages', free', tile', b) && b < |tile'| && tile'[b] == c + 1
            && FreePages(free', |pages|) + Run(b, c + 1, |pages|) == FreePages(free, |pages|) + Run(x, c, |pages|)
            && InUse(pages') == InUse(pages)
            && (Maximal(free) ==> Maximal(free')))
  {
    hide Base, Pow2, Buddy;
    var y := Buddy(x, c);
    BuddyHalf(x, c);
    BuddyIsHead(tile, x);
    assert y in free[c] <==> ListedFree(pages, tile, x, c, y);
    if y in free[c] {
      MergeSound(pages, free, tile, x);
      Unlink(pages, free, tile, x, c, y);
      MergeTiled(tile, x);
      var pages' := pages[y := pages[y].(order := 0)];
      assert InUse(pages') == InUse(pages);
    }
  }

  /** Listing the block in flight. */
  lemma FinishFree(pages: seq<Page>, free: FreeLists, tile: seq<nat>, x: nat, c: nat)
    requires Sound(pages, free, tile, x) && x < |tile| && tile[x] == c && c < MAX_ORDER
    requires Maximal(free) && (c < LAST_ORDER ==> Buddy(x, c) !in free[c])
    ensures var free' := free[c := [x] + free[c]]; var pages' := pages[x := pages[x].(order := c)];
      && Sound(pages', free', tile, -1) && Maximal(free')
      && FreePages(free', |pages|) == FreePages(free, |pages|) + Run(x, c, |pages|)
      && InUse(pages') == InUse(pages)
  {
    hide Base, Pow2, Buddy;
    var free' := free[c := [x] + free[c]];
    var pages' := pages[x := pages[x].(order := c)];
    forall g | g in free[c]
      ensures Base(g, c) == g && g != x
    {
      assert ListedFree(pages, tile, x, c, g);
    }
    Link(free, c, x, |pages|);
    forall j: nat, g: nat | j < MAX_ORDER
      ensures g in free'[j] <==> ListedFree(pages', tile, -1, j, g)
    {
      assert g in free[j] <==> ListedFree(pages, tile, x, j, g);
    }
    assert InUse(pages') == InUse(pages);
  }

  /** Taking the first block of a list puts it in flight. */
  lemma StartAlloc(pages: seq<Page>, free: FreeLists, tile: seq<nat>, k: nat)
    requires Sound(pages, free, tile, -1) && k < MAX_ORDER && free[k] != [] && Maximal(free)
    ensures var x := free[k][0]; var free' := free[k := Without(free[k], x)];
      && x < |tile| && tile[x] == k && Base(x, k) == x
      && Sound(pages, free', tile, x) && Maximal(free')
      && Run(x, k, |pages|) <= FreePages(free, |pages|)
      && FreePages(free', |pages|) == FreePages(free, |pages|) - Run(x, k, |pages|)
  {
    hide Base, Pow2, Buddy;
    var x := free[k][0];
    var free' := free[k := Without(free[k], x)];
    Unlink(pages, free, tile, -1, k, x);
    assert ListedFree(pages, tile, -1, k, x);
    forall j: nat, g: nat | j < MAX_ORDER
      ensures g in free'[j] <==> ListedFree(pages, tile, x, j, g)
    {
      assert g in free[j] <==> ListedFree(pages, tile, -1, j, g);
    }
  }

  /** One turn of the splitting loop. */
  lemma StepAlloc(pages: seq<Page>, free: FreeLists, tile: seq<nat>, x: nat, c: nat)
    requires Sound(pages, free, tile, x) && x < |tile| && tile[x] == c + 1 && Maximal(free)
    ensures x + Pow2(c) < |pages| && c < MAX_ORDER && Base(x, c) == x
    ensures var r := x + Pow2(c); var free' := free[c := [r] + free[c]];
      var pages' := pages[r := pages[r].(order := c)]; var tile' := Retile(tile, x, c + 1, c);
      && Sound(pages', free', tile', x) && tile'[x] == c && Maximal(free')
      && FreePages(free', |pages|) == FreePages(free, |pages|) + (Run(x, c + 1, |pages|) - Run(x, c, |pages|))
      && Run(x, c, |pages|) <= Run(x, c + 1, |pages|)
      && InUse(pages') == InUse(pages)
  {
    hide Base, Pow2, Buddy;
    var r := x + Pow2(c);
    SplitSound(pages, free, tile, x);
    SplitTiled(tile, x);
    AlignedDown(x, c, c + 1);
    forall g | g in free[c]
      ensures Base(g, c) == g && g != x
    {
      assert ListedFree(pages, tile, x, c, g);
    }
    Link(free, c, r, |pages|);
    var pages' := pages[r := pages[r].(order := c)];
    assert InUse(pages') == InUse(pages);
  }

  /** Handing out the block in flight. */
  lemma FinishAlloc(pages: seq<Page>, free: FreeLists, tile: seq<nat>, x: nat)
    requires Sound(pages, free, tile, x) && x < |tile|
    ensures var pages' := pages[x := Page(Invalid, tile[x], pages[x].refcount + 1)];
      && Sound(pages', free, tile, -1)
      && x !in InUse(pages) && InUse(pages') == InUse(pages)[x := Page(Invalid, tile[x], 1)]
  {
    hide Base, Pow2, Buddy;
    var pages' := pages[x := Page(Invalid, tile[x], pages[x].refcount + 1)];
    forall j: nat, g: nat | j < MAX_ORDER
      ensures g in free[j] <==> ListedFree(pages', tile, -1, j, g)
    {
      assert g in free[j] <==> ListedFree(pages, tile, x, j, g);
    }
  }

  /** When every list from order k up is empty, no aligned run of order k is free. */
  lemma NoRunFree(pages: seq<Page>, free: FreeLists, tile: seq<nat>, k: nat, b: nat)
    requires Sound(pages, free, tile, -1) && Maximal(free)
    requires forall j :: k <= j < MAX_ORDER ==> free[j] == []
    requires k <= LAST_ORDER && b < |pages| && Base(b, k) == b
    ensures !(Run(b, k, |pages|) <= FreePages(free, |pages|))
  {
    hide Base;
    if Run(b, k, |pages|) <= FreePages(free, |pages|) {
      var j := FreeRunInBlock(pages, free, tile, b, k);
    }
  }

  /** Blocks in use and listed blocks partition the page table: each page is free or belongs to exactly
      one block in use, and never both. */
  lemma BlocksPartition(pages: seq<Page>, free: FreeLists, tile: seq<nat>, p: nat)
    requires Sound(pages, free, tile, -1) && p < |pages|
    ensures p !in FreePages(free, |pages|) <==> exists h :: h in InUse(pages) && p in Run(h, pages[h].order, |pages|)
    ensures forall g, h ::
      (g in InUse(pages) && h in InUse(pages) && p in Run(g, pages[g].order, |pages|) &&
        p in Run(h, pages[h].order, |pages|))
      ==> g == h
  {
    hide Base, Pow2, Buddy;
    BlockOf(tile, p);
    var b := Base(p, tile[p]);
    forall h | h in InUse(pages) && p in Run(h, pages[h].order, |pages|)
      ensures h == b
    {
      assert Base(p, tile[h]) == Base(h, tile[h]);
    }
    if p in FreePages(free, |pages|) {
      var k: nat :| k < MAX_ORDER && Base(p, k) in free[k];
      FreeBlockOf(pages, free, tile, -1, p, k);
      assert ListedFree(pages, tile, -1, k, b);
    } else {
      assert Base(p, tile[p]) !in free[tile[p]];
      assert !ListedFree(pages, tile, -1, tile[p], b);
      assert b in InUse(pages) && p in Run(b, pages[b].order, |pages|);
    }
  }

  // ---------------------------------------------------------------- accounting

  /** Sum over the orders below k of list length times block size. */
  ghost function Weight(free: FreeLists, k: nat): nat
    requires k <= |free|
  {
    if k == 0 then 0 else Weight(free, k - 1) + |free[k - 1]| * Pow2(k - 1)
  }

  lemma {:induction false} WeightUpdate(free: FreeLists, k: nat, c: nat, s: seq<nat>)
    requires k <= |free| && c < |free|
    ensures Weight(free[c := s], k) == Weight(free, k) + if c < k then (|s| - |free[c]|) * Pow2(c) else 0
  {
    hide Pow2;
    if k > 0 {
      WeightUpdate(free, k - 1, c, s);
      if c == k - 1 { assert (|s| - |free[c]|) * Pow2(c) == |s| * Pow2(c) - |free[c]| * Pow2(c); }
    }
  }

  /** A run has 2^k pages. */
  lemma RunSize(b: nat, k: nat, n: nat)
    requires Base(b, k) == b && b + Pow2(k) <= n
    ensures |Run(b, k, n)| == Pow2(k)
  {
    hide Base, Pow2;
    forall p: nat
      ensures p in Run(b, k, n) <==> p in Interval(b, b + Pow2(k))
    {
      BaseBounds(p, k);
      if b <= p < b + Pow2(k) { BaseUnique(p, b, k); }
    }
    assert Run(b, k, n) == Interval(b, b + Pow2(k));
  }
}
