/** Page tables and page frames of private anonymous memory (kernel/mm/vmm.c, kernel/mm/vm_region.c) as
    values, and the invariant that copy-on-write rests on. */
module CowPages {
  import opened Collections

  const PAGE_SIZE: nat := 4096

  /** One virtual page of one task. */
  datatype Key = Key(task: nat, vpn: nat)

  /** A present page table entry: frame number and the PMM_WRITE and PMM_COW attributes. */
  datatype Pte = Pte(ppn: nat, write: bool, cow: bool)

  /** A page frame in use: reference count, home cluster, contents. */
  datatype Frame = Frame(refcount: nat, cid: nat, data: seq<int>)

  /** A private anonymous region inside the key granules [begin, end): the whole pages [start, limit) and the
      first `tail` bytes of page `limit`. In the source vm_limit is the byte address after the last one. */
  datatype Region =
    Region(begin: nat, start: nat, limit: nat, tail: nat, end: nat, readable: bool, writable: bool)

  type PageTable = map<Key, Pte>
  type Frames = map<nat, Frame>
  type Regions = map<nat, seq<Region>>

  ghost function ZeroPage(): seq<int>
  {
    seq(PAGE_SIZE, _ => 0)
  }

  /** The entries that name frame p. */
  ghost function Mappers(pt: PageTable, p: nat): set<Key>
  {
    set k | k in pt && pt[k].ppn == p
  }

  /** Reference counts are the numbers of entries, for every frame that has one. */
  ghost predicate RefsExact(pt: PageTable, frames: Frames)
  {
    && (forall k :: k in pt ==> pt[k].ppn in frames)
    && (forall p :: p in frames ==> frames[p].refcount >= 1 && |frames[p].data| == PAGE_SIZE)
    && (forall p :: p in frames && Mappers(pt, p) != {} ==> frames[p].refcount == |Mappers(pt, p)|)
  }

  /** The frames in use that no entry names: nobody can release them any more. */
  ghost function Lost(pt: PageTable, frames: Frames): set<nat>
  {
    set p | p in frames && Mappers(pt, p) == {}
  }

  /** An entry that is not copy-on-write is the only one for its frame, and no other entry is writable. */
  ghost predicate WriteSafe(pt: PageTable, frames: Frames)
  {
    forall k :: k in pt ==>
      (pt[k].write ==> !pt[k].cow) && (!pt[k].cow ==> pt[k].ppn in frames && frames[pt[k].ppn].refcount == 1)
  }

  /** A whole page of the region. */
  predicate InRegion(r: Region, vpn: nat)
  {
    r.start <= vpn < r.limit
  }

  /** The page of vm_limit, which the region covers in part or not at all. */
  predicate OnTail(r: Region, vpn: nat)
  {
    vpn == r.limit < r.end
  }

  ghost predicate InSome(rs: seq<Region>, vpn: nat)
  {
    exists n :: 0 <= n < |rs| && InRegion(rs[n], vpn)
  }

  ghost predicate OnSomeTail(rs: seq<Region>, vpn: nat)
  {
    exists n :: 0 <= n < |rs| && OnTail(rs[n], vpn)
  }

  /** What a region allows its entries to be: a writable region is written through or copied on write. */
  predicate Fits(r: Region, pte: Pte)
  {
    r.readable && if r.writable then pte.write || pte.cow else !pte.write
  }

  /** The entry belongs to region r; on its last, partial page it is never shared. */
  predicate Belongs(r: Region, vpn: nat, pte: Pte)
  {
    Fits(r, pte) && (InRegion(r, vpn) || (OnTail(r, vpn) && !pte.cow))
  }

  ghost predicate PlacedIn(rs: seq<Region>, vpn: nat, pte: Pte)
  {
    exists i :: 0 <= i < |rs| && Belongs(rs[i], vpn, pte)
  }

  ghost predicate Placed(pt: PageTable, regions: Regions)
  {
    forall k :: k in pt ==> k.task in regions && PlacedIn(regions[k.task], k.vpn, pt[k])
  }

  predicate RegionOk(r: Region)
  {
    && r.begin <= r.start <= r.limit <= r.end && r.tail < PAGE_SIZE && (r.tail > 0 ==> r.limit < r.end)
    && (r.writable ==> r.readable)
  }

  /** Regions of one task: sorted, with disjoint granules. */
  predicate Sorted(rs: seq<Region>)
  {
    && (forall i :: 0 <= i < |rs| ==> RegionOk(rs[i]))
    && (forall i, j :: 0 <= i < j < |rs| ==> rs[i].end <= rs[j].begin)
  }

  ghost predicate Inv(pt: PageTable, frames: Frames, regions: Regions)
  {
    && RefsExact(pt, frames)
    && WriteSafe(pt, frames)
    && Placed(pt, regions)
    && (forall t :: t in regions ==> Sorted(regions[t]))
  }

  /** What a process reads at page k: its frame, or zeroes before the first touch. */
  ghost function Content(pt: PageTable, frames: Frames, k: Key): (d: seq<int>)
    requires RefsExact(pt, frames)
    ensures |d| == PAGE_SIZE
  {
    if k in pt then frames[pt[k].ppn].data else ZeroPage()
  }

  // ---------------------------------------------------------------- elementary updates

  lemma SoleMapper(pt: PageTable, frames: Frames, k: Key, k': Key)
    requires RefsExact(pt, frames)
    requires k in pt && k' in pt && pt[k].ppn == pt[k'].ppn && frames[pt[k].ppn].refcount == 1
    ensures k == k'
  {
    var m := Mappers(pt, pt[k].ppn);
    assert k in m && {k, k'} <= m;
    if k != k' { SubsetSize({k, k'}, m); }
  }

  /** A fresh frame for a page not yet present. */
  lemma MapFresh(pt: PageTable, frames: Frames, k: Key, pte: Pte, f: Frame)
    requires RefsExact(pt, frames) && WriteSafe(pt, frames)
    requires k !in pt && pte.ppn !in frames && f.refcount == 1 && |f.data| == PAGE_SIZE && !(pte.write && pte.cow)
    ensures var pt', frames' := pt[k := pte], frames[pte.ppn := f];
      && RefsExact(pt', frames') && WriteSafe(pt', frames') && Lost(pt', frames') == Lost(pt, frames)
      && forall x :: Content(pt', frames', x) == if x == k then f.data else Content(pt, frames, x)
  {
    var pt', frames' := pt[k := pte], frames[pte.ppn := f];
    assert Mappers(pt', pte.ppn) == {k};
    forall p | p in frames
      ensures Mappers(pt', p) == Mappers(pt, p)
    {
    }
  }

  /** `page_refcount_down`, releasing the frame with its last reference. */
  function DropRef(frames: Frames, q: nat): Frames
    requires q in frames && frames[q].refcount >= 1
  {
    if frames[q].refcount == 1 then frames - {q}
    else frames[q := frames[q].(refcount := frames[q].refcount - 1)]
  }

  lemma MappersMinus(pt: PageTable, k: Key)
    requires k in pt
    ensures |Mappers(pt - {k}, pt[k].ppn)| == |Mappers(pt, pt[k].ppn)| - 1
    ensures forall p :: p != pt[k].ppn ==> Mappers(pt - {k}, p) == Mappers(pt, p)
  {
    assert Mappers(pt - {k}, pt[k].ppn) == Mappers(pt, pt[k].ppn) - {k};
  }

  lemma UnmapContent(pt: PageTable, frames: Frames, k: Key, x: Key)
    requires RefsExact(pt, frames) && k in pt && RefsExact(pt - {k}, DropRef(frames, pt[k].ppn))
    ensures Content(pt - {k}, DropRef(frames, pt[k].ppn), x) == if x == k then ZeroPage() else Content(pt, frames, x)
  {
    if x in pt - {k} { assert x in pt; }
    if x in pt && x != k { assert x in pt - {k}; }
  }

  /** Removing one entry: the frame loses a reference, or is released with its last one. */
  lemma Unmap(pt: PageTable, frames: Frames, k: Key)
    requires RefsExact(pt, frames) && WriteSafe(pt, frames) && k in pt
    ensures var pt', frames' := pt - {k}, DropRef(frames, pt[k].ppn);
      && RefsExact(pt', frames') && WriteSafe(pt', frames') && Lost(pt', frames') == Lost(pt, frames)
      && forall x :: Content(pt', frames', x) == if x == k then ZeroPage() else Content(pt, frames, x)
  {
    var q := pt[k].ppn;
    var pt', frames' := pt - {k}, DropRef(frames, q);
    MappersMinus(pt, k);
    assert k in Mappers(pt, q);
    forall x | x in pt'
      ensures pt'[x].ppn == q ==> frames[q].refcount != 1 && pt'[x].cow
    {
      if pt[x].ppn == q && frames[q].refcount == 1 { SoleMapper(pt, frames, k, x); }
    }
    assert RefsExact(pt', frames');
    forall x
      ensures Content(pt', frames', x) == if x == k then ZeroPage() else Content(pt, frames, x)
    {
      UnmapContent(pt, frames, k, x);
    }
  }

  lemma MappersPlus(pt: PageTable, s: Key, d: Key)
    requires s in pt && d !in pt
    ensures var q := pt[s].ppn; var pte := Pte(q, false, true); var pt' := pt[d := pte][s := pte];
      && |Mappers(pt', q)| == |Mappers(pt, q)| + 1
      && forall p :: p != q ==> Mappers(pt', p) == Mappers(pt, p)
  {
    var q := pt[s].ppn;
    var pte := Pte(q, false, true);
    assert Mappers(pt[d := pte][s := pte], q) == Mappers(pt, q) + {d};
  }

  function AddRef(frames: Frames, q: nat): Frames
    requires q in frames
  {
    frames[q := frames[q].(refcount := frames[q].refcount + 1)]
  }

  /** Sharing the frame of s with a new entry d: both become copy-on-write. */
  lemma Share(pt: PageTable, frames: Frames, s: Key, d: Key)
    requires RefsExact(pt, frames) && WriteSafe(pt, frames) && s in pt && d !in pt
    ensures var q := pt[s].ppn; var pte := Pte(q, false, true); var pt' := pt[d := pte][s := pte];
      && RefsExact(pt', AddRef(frames, q)) && WriteSafe(pt', AddRef(frames, q))
      && Lost(pt', AddRef(frames, q)) == Lost(pt, frames)
      && forall x :: Content(pt', AddRef(frames, q), x) == Content(pt, frames, if x == d then s else x)
  {
    var q := pt[s].ppn;
    var pte := Pte(q, false, true);
    var pt' := pt[d := pte][s := pte];
    MappersPlus(pt, s, d);
    assert s in Mappers(pt, q) && s in Mappers(pt', q);
    forall x | x in pt' && !pt'[x].cow
      ensures pt'[x].ppn != q
    {
      if pt[x].ppn == q { SoleMapper(pt, frames, x, s); }
    }
  }

  /** Changing the attributes of the only entry of a frame. */
  lemma Claim(pt: PageTable, frames: Frames, k: Key)
    requires RefsExact(pt, frames) && WriteSafe(pt, frames) && k in pt && frames[pt[k].ppn].refcount == 1
    ensures var pt' := pt[k := Pte(pt[k].ppn, true, false)];
      && RefsExact(pt', frames) && WriteSafe(pt', frames) && Lost(pt', frames) == Lost(pt, frames)
      && forall x :: Content(pt', frames, x) == Content(pt, frames, x)
  {
    var pt' := pt[k := Pte(pt[k].ppn, true, false)];
    forall p | p in frames
      ensures Mappers(pt', p) == Mappers(pt, p)
    {
    }
  }

  /** A store through a writable entry is seen by its own task only. */
  lemma Store(pt: PageTable, frames: Frames, k: Key, off: nat, x: int)
    requires RefsExact(pt, frames) && WriteSafe(pt, frames) && k in pt && pt[k].write && off < PAGE_SIZE
    ensures var q := pt[k].ppn; var frames' := frames[q := frames[q].(data := frames[q].data[off := x])];
      && RefsExact(pt, frames') && WriteSafe(pt, frames') && Lost(pt, frames') == Lost(pt, frames)
      && forall y ::
           Content(pt, frames', y) == if y == k then Content(pt, frames, k)[off := x] else Content(pt, frames, y)
  {
    var q := pt[k].ppn;
    var frames' := frames[q := frames[q].(data := frames[q].data[off := x])];
    forall y | y in pt && pt[y].ppn == q
      ensures y == k
    {
      SoleMapper(pt, frames, k, y);
    }
  }

  /** Giving one entry a frame of its own with the same contents. */
  lemma CopyOut(pt: PageTable, frames: Frames, k: Key, p: nat, f: Frame)
    requires RefsExact(pt, frames) && WriteSafe(pt, frames) && k in pt
    requires p !in frames && f.refcount == 1 && f.data == frames[pt[k].ppn].data
    ensures var pt', frames' := pt[k := Pte(p, true, false)], DropRef(frames, pt[k].ppn)[p := f];
      && RefsExact(pt', frames') && WriteSafe(pt', frames') && Lost(pt', frames') == Lost(pt, frames)
      && forall x :: Content(pt', frames', x) == Content(pt, frames, x)
  {
    Unmap(pt, frames, k);
    assert pt[k := Pte(p, true, false)] == (pt - {k})[k := Pte(p, true, false)];
    MapFresh(pt - {k}, DropRef(frames, pt[k].ppn), k, Pte(p, true, false), f);
  }

  /** A reference dropped while its entry stays breaks the count. */
  lemma DroppedEarly(pt: PageTable, frames: Frames, k: Key)
    requires RefsExact(pt, frames) && k in pt
    ensures !RefsExact(pt, DropRef(frames, pt[k].ppn))
  {
    assert k in Mappers(pt, pt[k].ppn);
  }

  /** There is always a frame number not in use. */
  lemma FreshExists(s: set<nat>)
    ensures exists p: nat :: p > 0 && p !in s
  {
    var m := Bound(s);
    assert m + 1 !in s;
  }

  lemma {:induction false} Bound(s: set<nat>) returns (m: nat)
    ensures forall p :: p in s ==> p <= m
  {
    if s == {} { return 0; }
    var x :| x in s;
    m := Bound(s - {x});
    assert forall p :: p in s && p != x ==> p in s - {x};
    m := if x > m then x else m;
  }

  // ---------------------------------------------------------------- regions

  lemma SameRegion(rs: seq<Region>, i: nat, j: nat, vpn: nat)
    requires Sorted(rs) && i < |rs| && j < |rs|
    requires rs[i].begin <= vpn < rs[i].end && rs[j].begin <= vpn < rs[j].end
    ensures i == j
  {
  }

  /** `vm_region_dup` on one present page: the child's entry is placed in its own copy of the region. */
  lemma ShareInv(pt: PageTable, frames: Frames, regions: Regions, s: Key, d: Key, i: nat, j: nat)
    requires Inv(pt, frames, regions) && s in pt && d !in pt && s.vpn == d.vpn
    requires s.task in regions && d.task in regions && i < |regions[s.task]| && j < |regions[d.task]|
    requires regions[s.task][i] == regions[d.task][j] && InRegion(regions[s.task][i], s.vpn)
    ensures var q := pt[s].ppn; var pte := Pte(q, false, true);
      Inv(pt[d := pte][s := pte], AddRef(frames, q), regions)
  {
    hide RefsExact, WriteSafe;
    Share(pt, frames, s, d);
    var pte := Pte(pt[s].ppn, false, true);
    var rs, rd := regions[s.task], regions[d.task];
    assert PlacedIn(rs, s.vpn, pt[s]);
    var n :| 0 <= n < |rs| && Belongs(rs[n], s.vpn, pt[s]);
    SameRegion(rs, n, i, s.vpn);
    assert Belongs(rs[i], s.vpn, pte);
    assert PlacedIn(rs, s.vpn, pte);
    assert Belongs(rd[j], d.vpn, pte);
    assert PlacedIn(rd, d.vpn, pte);
  }
}
