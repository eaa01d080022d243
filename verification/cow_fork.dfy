/** Fork with copy-on-write (kernel/mm/vmm.c, kernel/mm/vm_region.c) and its specification, a machine
    where fork copies every page eagerly. */
module CowFork {
  import opened Collections
  import opened CowPages

  // ---------------------------------------------------------------- specification

  datatype Op =
    | Mmap(t: nat, at: nat, r: Region)
    | Munmap(t: nat, at: nat)
    | Fork(src: nat, dst: nat)
    | Exit(t: nat)
    | Read(t: nat, vpn: nat, off: nat)
    | Write(t: nat, vpn: nat, off: nat, x: int)

  datatype Outcome = Done | Value(x: int) | Refused

  /** Every task owns its pages; pages absent from `mem` are zero. `tails` are the last, partial pages of
      regions that have been accessed, and `lost` is how many of them a process still had when it ended. */
  datatype Spec = Spec(regions: Regions, mem: map<Key, seq<int>>, tails: set<Key>, lost: nat)

  ghost function Get(mem: map<Key, seq<int>>, k: Key): seq<int>
  {
    if k in mem then mem[k] else ZeroPage()
  }

  function Insert(rs: seq<Region>, at: nat, r: Region): seq<Region>
    requires at <= |rs|
  {
    rs[..at] + [r] + rs[at..]
  }

  function Remove(rs: seq<Region>, at: nat): seq<Region>
    requires at < |rs|
  {
    rs[..at] + rs[at + 1..]
  }

  predicate Rights(r: Region, write: bool)
  {
    r.readable && (write ==> r.writable)
  }

  /** The byte lies in a region with these rights. */
  predicate Covers(rs: seq<Region>, vpn: nat, off: nat, write: bool)
  {
    exists i :: 0 <= i < |rs| && Rights(rs[i], write) && (InRegion(rs[i], vpn) || (OnTail(rs[i], vpn) &&
      off < rs[i].tail))
  }

  /** The state after a successful access. */
  ghost function Touched(s: Spec, k: Key): Spec
    requires k.task in s.regions
  {
    if OnSomeTail(s.regions[k.task], k.vpn) then s.(tails := s.tails + {k}) else s
  }

  /** The pages of process t. */
  ghost function Of(keys: set<Key>, t: nat): set<Key>
  {
    set k | k in keys && k.task == t
  }

  /** One operation of the machine that copies eagerly. */
  ghost function SpecStep(s: Spec, op: Op): (Spec, Outcome)
  {
    match op
    case Mmap(t, at, r) =>
      if t in s.regions && at <= |s.regions[t]| && Sorted(Insert(s.regions[t], at, r))
      then (s.(regions := s.regions[t := Insert(s.regions[t], at, r)]), Done)
      else (s, Refused)
    case Munmap(t, at) =>
      if t in s.regions && at < |s.regions[t]| then
        var r := s.regions[t][at];
        (s.(regions := s.regions[t := Remove(s.regions[t], at)],
            mem := map k | k in s.mem && !(k.task == t && (InRegion(r, k.vpn) || OnTail(r, k.vpn))) :: s.mem[k]), Done)
      else (s, Refused)
    case Fork(src, dst) =>
      if src in s.regions && dst !in s.regions then
        var copy := map k | k in (set x | x in s.mem && x.task == src :: Key(dst, x.vpn)) :: s.mem[Key(src, k.vpn)];
        (s.(regions := s.regions[dst := s.regions[src]], mem := (map k | k in s.mem &&
          k.task != dst :: s.mem[k]) + copy),
         Done)
      else (s, Refused)
    case Exit(t) =>
      if t in s.regions
      then (s.(regions := s.regions - {t}, mem := map k | k in s.mem && k.task != t :: s.mem[k],
               tails := s.tails - Of(s.tails, t), lost := s.lost + |Of(s.tails, t)|), Done)
      else (s, Refused)
    case Read(t, vpn, off) =>
      var k := Key(t, vpn);
      if t in s.regions && off < PAGE_SIZE && Covers(s.regions[t], vpn, off, false) && |Get(s.mem, k)| == PAGE_SIZE
      then (Touched(s, k), Value(Get(s.mem, k)[off]))
      else (s, Refused)
    case Write(t, vpn, off, x) =>
      var k := Key(t, vpn);
      if t in s.regions && off < PAGE_SIZE && Covers(s.regions[t], vpn, off, true) && |Get(s.mem, k)| == PAGE_SIZE
      then (Touched(s, k).(mem := s.mem[k := Get(s.mem, k)[off := x]]), Done)
      else (s, Refused)
  }

  /** What the kernel serves: the fault handler accepts the byte at vm_limit too, and once the last, partial page
      is present the hardware accepts all of it. */
  predicate Reach(rs: seq<Region>, vpn: nat, off: nat, write: bool, present: bool)
  {
    exists i :: 0 <= i < |rs| && Rights(rs[i], write) &&
      (InRegion(rs[i], vpn) || (OnTail(rs[i], vpn) && (present || off <= rs[i].tail)))
  }

  /** The accesses that are served outside the region. */
  predicate PastLimit(rs: seq<Region>, vpn: nat, off: nat, write: bool, present: bool)
  {
    exists i :: 0 <= i < |rs| && Rights(rs[i], write) && OnTail(rs[i], vpn) && off >= rs[i].tail &&
      (present || off == rs[i].tail)
  }

  /** Such accesses exist: byte 5000 of a region of 5000 bytes. */
  lemma LimitExample()
    ensures var rs := [Region(0, 0, 1, 904, 16, true, true)];
      Sorted(rs) && PastLimit(rs, 1, 904, true, false) && Reach(rs, 1, 904, true, false) && !Covers(rs, 1, 904, true)
  {
    var rs := [Region(0, 0, 1, 904, 16, true, true)];
    assert OnTail(rs[0], 1) && Rights(rs[0], true);
  }

  /** The operations on which the kernel and the eager machine agree. They part on bytes past a region; on fork and
      unmapping they part because only whole pages are shared and dropped: a last, partial page must not have been
      accessed when its region is unmapped, and must be zero at a fork. */
  ghost predicate Clear(s: Spec, op: Op)
  {
    match op
    case Mmap(_, _, _) => true
    case Munmap(t, at) =>
      t in s.regions && at < |s.regions[t]| ==>
        (var r := s.regions[t][at]; !(OnTail(r, r.limit) && Key(t, r.limit) in s.tails))
    case Fork(src, dst) =>
      src in s.regions && dst !in s.regions ==> TailsZero(s, src)
    case Exit(_) => true
    case Read(t, vpn, off) =>
      t in s.regions && off < PAGE_SIZE ==> !PastLimit(s.regions[t], vpn, off, false, Key(t, vpn) in s.tails)
    case Write(t, vpn, off, x) =>
      t in s.regions && off < PAGE_SIZE ==> !PastLimit(s.regions[t], vpn, off, true, Key(t, vpn) in s.tails)
  }

  /** The last, partial pages of process t that have been accessed are zero. */
  ghost predicate TailsZero(s: Spec, t: nat)
  {
    forall k :: k in s.tails && k.task == t ==> Get(s.mem, k) == ZeroPage()
  }

  ghost function SpecRun(s: Spec, ops: seq<Op>): (Spec, seq<Outcome>)
    decreases |ops|
  {
    if ops == [] then (s, [])
    else
      var (s1, o) := SpecRun(s, ops[..|ops| - 1]);
      var (s2, x) := SpecStep(s1, ops[|ops| - 1]);
      (s2, o + [x])
  }

  ghost predicate ClearRun(s: Spec, ops: seq<Op>)
  {
    forall i :: 0 <= i < |ops| ==> Clear(SpecRun(s, ops[..i]).0, ops[i])
  }

  // ---------------------------------------------------------------- the kernel

  class Kernel {
    var pt: PageTable
    var frames: Frames
    var regions: Regions

    ghost predicate Valid()
      reads this
    {
      Inv(pt, frames, regions)
    }

    ghost function Page(k: Key): (d: seq<int>)
      requires Valid()
      reads this
      ensures |d| == PAGE_SIZE
    {
      Content(pt, frames, k)
    }

    /** The kernel state stands for the specification state s, and has lost as many frames as s says. */
    ghost predicate Implements(s: Spec)
      reads this
    {
      && Valid() && regions == s.regions
      && (forall k :: Page(k) == Get(s.mem, k))
      && TailsAre(pt, regions, s.tails) && |Lost(pt, frames)| == s.lost
    }

    /** One task without memory. */
    constructor ()
      ensures Implements(Spec(map[0 := []], map[], {}, 0)) && pt == map[]
    {
      pt, frames, regions := map[], map[], map[0 := []];
    }

    /** `kmem_alloc` of one page: some frame not in use, on some cluster. */
    method AllocFrame(data: seq<int>) returns (p: nat)
      requires |data| == PAGE_SIZE
      modifies this`frames
      ensures p > 0 && p !in old(frames)
      ensures p in frames && frames[p].refcount == 1 && frames[p].data == data && frames == old(frames)[p := frames[p]]
    {
      FreshExists(frames.Keys);
      p :| p > 0 && p !in frames;
      var cid: nat := *;
      frames := frames[p := Frame(1, cid, data)];
    }

    /** `vmm_do_aod`: first touch of a page, when the allocation fails iff `nomem`. */
    method DoAod(k: Key, r: Region, nomem: bool) returns (ok: bool)
      requires RefsExact(pt, frames) && WriteSafe(pt, frames) && k !in pt
      modifies this`pt, this`frames
      ensures RefsExact(pt, frames) && WriteSafe(pt, frames) && ok == !nomem
      ensures ok ==> exists p :: pt == old(pt)[k := Pte(p, r.writable, false)]
      ensures !ok ==> pt == old(pt) && frames == old(frames)
      ensures Lost(pt, frames) == old(Lost(pt, frames))
      ensures forall x :: Content(pt, frames, x) == old(Content(pt, frames, x))
    {
      if nomem {
        return false;
      }
      ghost var frames0 := frames;
      var zero := seq(PAGE_SIZE, _ => 0);
      assert zero == ZeroPage();
      var p := AllocFrame(zero);
      ghost var f := frames[p];
      assert frames == frames0[p := f];
      MapFresh(pt, frames0, k, Pte(p, r.writable, false), f);
      pt := pt[k := Pte(p, r.writable, false)];
      return true;
    }

    /** `vmm_do_cow` on a write fault, when the allocation it may need fails iff `nomem`. */
    method DoCow(k: Key, cluster: nat, nomem: bool)
      requires Valid() && k in pt
      modifies this`pt, this`frames
      ensures var f := old(frames[pt[k].ppn]);
        var starved := nomem && old(pt[k].cow) && (f.refcount != 1 || f.cid != cluster);
        && (starved <==> !RefsExact(pt, frames))
        && (starved ==> pt == old(pt) && frames == DropRef(old(frames), old(pt[k].ppn)))
        && (!starved ==>
              && WriteSafe(pt, frames) && Lost(pt, frames) == old(Lost(pt, frames))
              && pt.Keys == old(pt.Keys) && (forall x :: x in pt && x != k ==> pt[x] == old(pt)[x])
              && (if old(pt[k].cow) then pt[k].write && !pt[k].cow else pt[k] == old(pt[k]))
              && forall x :: Content(pt, frames, x) == old(Content(pt, frames, x)))
    {
      hide RefsExact, WriteSafe, Content, Lost;
      CountPositive(pt, frames, k);
      if !pt[k].cow {
        return;
      }
      var q := pt[k].ppn;
      ghost var frames0 := frames;
      var isFreeable := false;
      if frames[q].refcount == 1 {
        if frames[q].cid != cluster {
          isFreeable := true;
        } else {
          Claim(pt, frames, k);
          pt := pt[k := Pte(q, true, false)];
          return;
        }
      } else {
        frames := frames[q := frames[q].(refcount := frames[q].refcount - 1)];
      }
      if nomem {
        if isFreeable { frames := frames - {q}; }
        DroppedEarly(pt, frames0, k);
        return;
      }
      var newpage := AllocFrame(frames[q].data);
      CopyOut(pt, frames0, k, newpage, frames[newpage]);
      pt := pt[k := Pte(newpage, true, false)];
      if isFreeable {
        frames := frames - {q};
      }
      assert frames == DropRef(frames0, q)[newpage := frames[newpage]];
    }

    /** `vm_region_find_list`: the first region that ends above the page. */
    method FindRegion(t: nat, vpn: nat) returns (i: nat)
      requires t in regions
      ensures i <= |regions[t]| && (i < |regions[t]| ==> vpn < regions[t][i].end)
      ensures forall j :: 0 <= j < i ==> regions[t][j].end <= vpn
    {
      i := 0;
      while i < |regions[t]| && regions[t][i].end <= vpn
        invariant i <= |regions[t]|
        invariant forall j :: 0 <= j < i ==> regions[t][j].end <= vpn
      {
        i := i + 1;
      }
    }

    /** One memory access of task t: the hardware walk, then `vmm_fault_handler`, `vm_region_update` and
        `vmm_default_pagefault` if it faults. Nobody's contents change, and the access is served exactly when it
        is in reach. */
    method Access(t: nat, vpn: nat, off: nat, write: bool, cluster: nat) returns (ok: bool)
      requires Valid() && t in regions
      modifies this`pt, this`frames
      ensures Valid() && (forall x :: Page(x) == old(Page(x))) && Lost(pt, frames) == old(Lost(pt, frames))
      ensures ok <==> Reach(regions[t], vpn, off, write, Key(t, vpn) in old(pt))
      ensures pt.Keys == old(pt.Keys) + if ok then {Key(t, vpn)} else {}
      ensures ok && write ==> pt[Key(t, vpn)].write
      ensures !ok ==> pt == old(pt) && frames == old(frames)
    {
      hide RefsExact, WriteSafe, Content, Reach, Sorted, Lost;
      var k := Key(t, vpn);
      ghost var rs, n := regions[t], 0;
      if k in pt {
        n := PresentRegion(pt, frames, regions, k);
        OneRegion(rs, n, vpn);
        ReachHere(rs, n, vpn, off, write, true);
      }
      if k in pt && (!write || pt[k].write) {
        return true;
      }
      var i := FindRegion(t, vpn);
      FirstRegion(rs, i, vpn);
      ReachHere(rs, i, vpn, off, write, k in pt);
      if i == |regions[t]| {
        return false;
      }
      var r := regions[t][i];
      if vpn > r.limit || (vpn == r.limit && off > r.tail) || vpn < r.start {
        return false;
      }
      if (k !in pt && !r.readable) || (write && !r.writable) {
        return false;
      }
      if k in pt {
        DoCow(k, cluster, false);
        RePlaced(old(pt), pt, regions, k, i);
      } else {
        ok := DoAod(k, r, false);
        FirstTouch(old(pt), pt, regions, k, i);
      }
      return true;
    }

    /** The page loop of `vm_region_dup` for a private region: its whole pages become shared and copy-on-write. */
    method DupPages(src: nat, dst: nat, i: nat, j: nat)
      requires Valid() && src in regions && dst in regions && src != dst
      requires i < |regions[src]| && j < |regions[dst]| && regions[src][i] == regions[dst][j]
      requires forall k :: k in pt && k.task == dst ==> !InRegion(regions[src][i], k.vpn)
      modifies this`pt, this`frames
      ensures Valid() && Lost(pt, frames) == old(Lost(pt, frames))
      ensures var r := regions[src][i]; Shared(old(pt), pt, src, dst, Between(r.start, r.limit))
      ensures forall x ::
        Page(x) == old(Page(if x.task == dst && InRegion(regions[src][i], x.vpn) then Key(src, x.vpn) else x))
    {
      hide RefsExact, WriteSafe, Content, Placed, Sorted, Copied, Shared, Between, Lost;
      var r := regions[src][i];
      var v := r.start;
      SharedNone(pt, src, dst, [], v);
      CopiedNone(pt, frames, src, dst, v);
      while v < r.limit
        invariant r.start <= v && (v <= r.limit || v == r.start)
        invariant Valid() && Lost(pt, frames) == old(Lost(pt, frames))
        invariant Shared(old(pt), pt, src, dst, Between(r.start, v))
        invariant forall k :: k in pt && k.task == dst ==> !(v <= k.vpn < r.limit)
        invariant Copied(old(pt), old(frames), pt, frames, src, dst, r.start, v)
      {
        var s, d := Key(src, v), Key(dst, v);
        ghost var pt0, frames0 := pt, frames;
        if s in pt {
          var pte := Pte(pt[s].ppn, false, true);
          CountPositive(pt, frames, s);
          ShareInv(pt, frames, regions, s, d, i, j);
          Share(pt, frames, s, d);
          pt := pt[d := pte][s := pte];
          frames := AddRef(frames, pte.ppn);
        }
        CopiedStep(old(pt), old(frames), pt0, frames0, pt, frames, regions, src, dst, r.start, v);
        SharedStep(old(pt), pt0, pt, src, dst, r.start, v);
        v := v + 1;
      }
      BetweenEnd(r, v);
      CopiedAll(old(pt), old(frames), pt, frames, src, dst, r, v);
    }

    /** `vmm_dup`: the child gets every region of its parent. It reads what the parent reads, except on the last,
        partial pages, which it reads as zero. */
    method ForkTask(src: nat, dst: nat)
      requires Valid() && src in regions && dst !in regions
      modifies this
      ensures Valid() && regions == old(regions)[dst := old(regions)[src]] && Lost(pt, frames) == old(Lost(pt, frames))
      ensures forall x :: (Page(x) ==
        if x.task != dst then old(Page(x))
        else if OnSomeTail(old(regions)[src], x.vpn) then ZeroPage() else old(Page(Key(src, x.vpn))))
      ensures Shared(old(pt), pt, src, dst, Whole(old(regions)[src]))
    {
      hide RefsExact, WriteSafe, Content, Forked, Shared, Whole, Between, InSome, OnSomeTail, Lost;
      var rs := regions[src];
      assert forall k :: k in pt ==> k.task != dst;
      regions := regions[dst := []];
      MoreRegions(pt, frames, old(regions), dst, []);
      ForkedNone(pt, frames, src, dst, rs);
      SharedNone(pt, src, dst, rs, 0);
      var i := 0;
      while i < |rs|
        invariant i <= |rs| && Valid() && regions == old(regions)[dst := rs[..i]]
        invariant Forked(old(pt), old(frames), pt, frames, src, dst, rs[..i])
        invariant Shared(old(pt), pt, src, dst, Whole(rs[..i])) && Lost(pt, frames) == old(Lost(pt, frames))
      {
        GrowRegions(pt, frames, regions, dst, rs, i);
        regions := regions[dst := rs[..i + 1]];
        ghost var pt0, frames0 := pt, frames;
        DupPages(src, dst, i, i);
        ForkedStep(old(pt), old(frames), pt0, frames0, pt, frames, src, dst, rs, i);
        SharedRegion(old(pt), pt0, pt, src, dst, rs, i);
        i := i + 1;
      }
      assert rs[..|rs|] == rs;
      ForkedAll(old(pt), old(frames), pt, frames, old(regions), src, dst);
    }

    /** `vm_region_unmap`: drops the reference of every whole page of a region that is present. A lazy unmap leaves
        the entries of the dying task in place; `live` is the page table without them. */
    method UnmapPages(t: nat, r: Region, lazy: bool, ghost live: PageTable) returns (ghost live': PageTable)
      requires RefsExact(live, frames) && WriteSafe(live, frames)
      requires forall v :: InRegion(r, v) ==> (Key(t, v) in pt <==> Key(t, v) in live)
      requires forall k :: k in pt && k in live ==> pt[k] == live[k]
      modifies this`pt, this`frames
      ensures live' == Cut(live, t, r.start, r.limit) && RefsExact(live', frames) && WriteSafe(live', frames)
      ensures Lost(live', frames) == Lost(live, old(frames))
      ensures pt == if lazy then old(pt) else Cut(old(pt), t, r.start, r.limit)
      ensures Erased(live, old(frames), live', frames, t, r.start, r.limit)
    {
      hide RefsExact, WriteSafe, Content, Erased, Cut, Lost;
      var v := r.start;
      live' := live;
      ErasedNone(pt, live, frames, t, v);
      while v < r.limit
        invariant r.start <= v && (v <= r.limit || v == r.start)
        invariant live' == Cut(live, t, r.start, v) && RefsExact(live', frames) && WriteSafe(live', frames)
        invariant pt == if lazy then old(pt) else Cut(old(pt), t, r.start, v)
        invariant Erased(live, old(frames), live', frames, t, r.start, v)
        invariant Lost(live', frames) == Lost(live, old(frames))
      {
        var k := Key(t, v);
        ghost var live0, frames0 := live', frames;
        CutStep(old(pt), t, r.start, v);
        CutStep(live, t, r.start, v);
        if k in pt {
          var page := pt[k].ppn;
          CountPositive(live', frames, k);
          Unmap(live', frames, k);
          if !lazy { pt := pt - {k}; }
          live' := live' - {k};
          frames := DropRef(frames, page);
        }
        ErasedStep(live, old(frames), live0, frames0, live', frames, t, r.start, v);
        v := v + 1;
      }
      ErasedAll(old(pt), live, old(frames), live', frames, t, r, v);
    }

    /** `vm_region_detach` of a whole region, as `vmm_do_munmap` requests it. Its whole pages are gone; the invariant
        survives exactly when its last, partial page is not present, which would stay behind. */
    method MunmapRegion(t: nat, at: nat)
      requires Valid() && t in regions && at < |regions[t]|
      modifies this
      ensures regions == old(regions)[t := Remove(old(regions)[t], at)]
      ensures RefsExact(pt, frames) && WriteSafe(pt, frames) && Lost(pt, frames) == old(Lost(pt, frames))
      ensures var r := old(regions)[t][at];
        && pt == Cut(old(pt), t, r.start, r.limit)
        && (Valid() <==> !(OnTail(r, r.limit) && Key(t, r.limit) in old(pt)))
        && (forall x :: Content(pt, frames, x) == if x.task == t && InRegion(r, x.vpn) then ZeroPage()
           else old(Page(x)))
    {
      hide RefsExact, WriteSafe, Content;
      var r := regions[t][at];
      ghost var live := UnmapPages(t, r, false, pt);
      CutPlaced(old(pt), regions, t, r.start, r.limit);
      RemoveRegion(pt, frames, regions, t, at);
      regions := regions[t := Remove(regions[t], at)];
    }

    /** `vmm_destroy`: every region is detached lazily, then its page table is gone. Nobody else's pages change. The
        frames that no entry names any more, and that are never released, are exactly those of the last, partial
        pages of the process that were present. */
    method ExitTask(t: nat)
      requires Valid() && t in regions
      modifies this
      ensures Valid() && regions == old(regions) - {t} && pt == WithoutTask(old(pt), t)
      ensures forall x :: Page(x) == if x.task == t then ZeroPage() else old(Page(x))
      ensures Lost(pt, frames) == old(Lost(pt, frames)) + TailFrames(old(pt), old(regions)[t], t)
    {
      hide RefsExact, WriteSafe, Content, Erased, Cut, Exiting, OthersSame, Lost, TailFrames;
      ghost var live := pt;
      ghost var rs := regions[t];
      ExitStart(pt, frames, rs, t);
      while regions[t] != []
        invariant t in regions && RefsExact(live, frames) && WriteSafe(live, frames) && Sorted(regions[t])
        invariant regions == old(regions)[t := regions[t]]
        invariant pt == old(pt) && Exiting(pt, live, rs, regions[t], t)
        invariant OthersSame(pt, old(frames), live, frames, t) && Lost(live, frames) == Lost(pt, old(frames))
        decreases |regions[t]|
      {
        var r := regions[t][0];
        ghost var live0, frames0 := live, frames;
        ExitStep(pt, live, rs, regions[t], t);
        live := UnmapPages(t, r, true, live);
        ErasedOthers(pt, old(frames), live0, frames0, live, frames, t, r.start, r.limit);
        regions := regions[t := Remove(regions[t], 0)];
      }
      ExitDone(pt, old(frames), live, frames, old(regions), t);
      pt := map k | k in pt && k.task != t :: pt[k];
      regions := regions - {t};
      assert regions == old(regions) - {t};
    }

    /** `vmm_mmap` of a private anonymous region at its place in the list. */
    method MmapRegion(t: nat, at: nat, r: Region)
      requires Valid() && t in regions && at <= |regions[t]| && Sorted(Insert(regions[t], at, r))
      modifies this`regions
      ensures Valid() && regions == old(regions)[t := Insert(old(regions)[t], at, r)]
      ensures forall x :: Page(x) == old(Page(x))
      ensures forall v :: InRegion(r, v) || OnTail(r, v) ==> Key(t, v) !in pt && Page(Key(t, v)) == ZeroPage()
    {
      hide RefsExact, WriteSafe, Content;
      InsertRegion(pt, frames, regions, t, at, r);
      NewRegionEmpty(pt, frames, regions, t, at, r);
      regions := regions[t := Insert(regions[t], at, r)];
    }

    /** A load by task t. */
    method Load(t: nat, vpn: nat, off: nat, cluster: nat) returns (o: Outcome)
      requires Valid() && t in regions && off < PAGE_SIZE
      modifies this`pt, this`frames
      ensures Valid() && (forall x :: Page(x) == old(Page(x))) && Lost(pt, frames) == old(Lost(pt, frames))
      ensures o == if Reach(regions[t], vpn, off, false, Key(t, vpn) in old(pt)) then Value(old(Page(Key(t, vpn)))[off])
                   else Refused
      ensures pt.Keys == old(pt.Keys) + if o.Value? then {Key(t, vpn)} else {}
    {
      hide Reach, Lost;
      var ok := Access(t, vpn, off, false, cluster);
      if !ok {
        return Refused;
      }
      return Value(frames[pt[Key(t, vpn)].ppn].data[off]);
    }

    /** A store by task t. */
    method StoreWord(t: nat, vpn: nat, off: nat, w: int, cluster: nat) returns (o: Outcome)
      requires Valid() && t in regions && off < PAGE_SIZE
      modifies this`pt, this`frames
      ensures Valid() && Lost(pt, frames) == old(Lost(pt, frames))
      ensures o == if Reach(regions[t], vpn, off, true, Key(t, vpn) in old(pt)) then Done else Refused
      ensures var k := Key(t, vpn);
        forall x :: Page(x) == if x == k && o.Done? then old(Page(k))[off := w] else old(Page(x))
      ensures pt.Keys == old(pt.Keys) + if o.Done? then {Key(t, vpn)} else {}
    {
      hide RefsExact, WriteSafe, Content, Reach, Lost;
      var ok := Access(t, vpn, off, true, cluster);
      if !ok {
        return Refused;
      }
      var k := Key(t, vpn);
      var q := pt[k].ppn;
      CountPositive(pt, frames, k);
      Store(pt, frames, k, off, w);
      frames := frames[q := frames[q].(data := frames[q].data[off := w])];
      return Done;
    }

    method StepMmap(t: nat, at: nat, r: Region, ghost s: Spec) returns (o: Outcome)
      requires Implements(s)
      modifies this
      ensures o == SpecStep(s, Mmap(t, at, r)).1 && Implements(SpecStep(s, Mmap(t, at, r)).0)
    {
      hide Inv, Content, Lost, Sorted, ZeroPage, OnSomeTail;
      if t !in regions || at > |regions[t]| || !Sorted(Insert(regions[t], at, r)) { return Refused; }
      MmapRegion(t, at, r);
      MmapTails(pt, old(regions), t, at, r, s.tails);
      return Done;
    }

    method StepMunmap(t: nat, at: nat, ghost s: Spec) returns (o: Outcome)
      requires Implements(s)
      modifies this
      ensures o == SpecStep(s, Munmap(t, at)).1
      ensures Clear(s, Munmap(t, at)) <==> Implements(SpecStep(s, Munmap(t, at)).0)
    {
      hide Inv, Content, Lost, Sorted, ZeroPage, OnSomeTail;
      if t !in regions || at >= |regions[t]| { return Refused; }
      ghost var tail := Key(t, regions[t][at].limit);
      assert Page(tail) == Get(s.mem, tail);
      MunmapTails(pt, frames, regions, t, at, s.tails);
      MunmapRegion(t, at);
      return Done;
    }

    method StepFork(src: nat, dst: nat, ghost s: Spec) returns (o: Outcome)
      requires Implements(s)
      modifies this
      ensures o == SpecStep(s, Fork(src, dst)).1
      ensures Clear(s, Fork(src, dst)) <==> Implements(SpecStep(s, Fork(src, dst)).0)
    {
      hide Inv, Content, Lost, Sorted, ZeroPage, OnSomeTail, Shared, Whole, TailsAre, Get;
      if src !in regions || dst in regions { return Refused; }
      OpenInv(pt, frames, regions);
      OtherTasks(pt, frames, regions, dst);
      ForkTask(src, dst);
      OpenInv(pt, frames, regions);
      SpecFork(s, src, dst);
      ForkAgrees(old(pt), old(frames), pt, frames, src, dst, s, SpecStep(s, Fork(src, dst)).0.mem);
      ForkTails(old(pt), pt, old(regions), src, dst, s.tails);
      return Done;
    }

    method StepExit(t: nat, ghost s: Spec) returns (o: Outcome)
      requires Implements(s)
      modifies this
      ensures o == SpecStep(s, Exit(t)).1 && Implements(SpecStep(s, Exit(t)).0)
    {
      hide Inv, Content, Lost, Sorted, ZeroPage, OnSomeTail;
      if t !in regions { return Refused; }
      ExitTails(pt, regions, t, s.tails);
      TailCount(pt, frames, regions, t, s.tails);
      ExitTask(t);
      return Done;
    }

    /** Any operation of any task does what the eager machine does, if and only if it is clear. */
    method Step(op: Op, cluster: nat, ghost s: Spec) returns (o: Outcome)
      requires Implements(s)
      modifies this
      ensures Clear(s, op) <==> o == SpecStep(s, op).1 && Implements(SpecStep(s, op).0)
    {
      hide Inv, Content, Lost, Covers, Reach, PastLimit, Sorted, ZeroPage, OnSomeTail;
      match op
      case Mmap(t, at, r) => o := StepMmap(t, at, r, s);
      case Munmap(t, at) => o := StepMunmap(t, at, s);
      case Fork(src, dst) => o := StepFork(src, dst, s);
      case Exit(t) => o := StepExit(t, s);
      case Read(t, vpn, off) => o := StepRead(t, vpn, off, cluster, s);
      case Write(t, vpn, off, x) => o := StepWrite(t, vpn, off, x, cluster, s);
    }

    method StepRead(t: nat, vpn: nat, off: nat, cluster: nat, ghost s: Spec) returns (o: Outcome)
      requires Implements(s)
      modifies this
      ensures var op := Read(t, vpn, off); Clear(s, op) <==> o == SpecStep(s, op).1 && Implements(SpecStep(s, op).0)
    {
      hide Inv, Content, TailsAre, Lost, Covers, Reach, PastLimit, Sorted, ZeroPage, OnSomeTail;
      assert Page(Key(t, vpn)) == Get(s.mem, Key(t, vpn));
      if t !in regions || off >= PAGE_SIZE { return Refused; }
      AccessKnown(pt, frames, regions, Key(t, vpn), off, false, s.tails);
      o := Load(t, vpn, off, cluster);
      AccessTails(old(pt), pt, regions, Key(t, vpn), o.Value?, s.tails);
    }

    method StepWrite(t: nat, vpn: nat, off: nat, x: int, cluster: nat, ghost s: Spec) returns (o: Outcome)
      requires Implements(s)
      modifies this
      ensures var op := Write(t, vpn, off, x); Clear(s, op) <==> o == SpecStep(s, op).1 && Implements(SpecStep(s, op).0)
    {
      hide Inv, Content, TailsAre, Lost, Covers, Reach, PastLimit, Sorted, ZeroPage, OnSomeTail;
      assert Page(Key(t, vpn)) == Get(s.mem, Key(t, vpn));
      if t !in regions || off >= PAGE_SIZE { return Refused; }
      AccessKnown(pt, frames, regions, Key(t, vpn), off, true, s.tails);
      o := StoreWord(t, vpn, off, x, cluster);
      AccessTails(old(pt), pt, regions, Key(t, vpn), o.Done?, s.tails);
    }

    /** Over any run of clear operations by any number of tasks, the copy-on-write kernel gives every task the
        answers of the eager machine, and loses exactly the frames of last, partial pages of processes that end. */
    method Run(ops: seq<Op>, clusters: seq<nat>, ghost s: Spec) returns (out: seq<Outcome>)
      requires Implements(s) && |clusters| == |ops| && ClearRun(s, ops)
      modifies this
      ensures Implements(SpecRun(s, ops).0) && out == SpecRun(s, ops).1
    {
      out := [];
      var i := 0;
      while i < |ops|
        invariant i <= |ops|
        invariant Implements(SpecRun(s, ops[..i]).0) && out == SpecRun(s, ops[..i]).1
      {
        hide *;
        ClearAt(s, ops, i);
        assert ops[..i + 1][..i] == ops[..i];
        SpecRunLast(s, ops[..i + 1]);
        var o := Step(ops[i], clusters[i], SpecRun(s, ops[..i]).0);
        out := out + [o];
        i := i + 1;
      }
      assert ops[..i] == ops;
    }

    /** A run agrees with the eager machine one operation further if and only if that operation is clear: the first
        one that is not shows. */
    method RunOneMore(ops: seq<Op>, clusters: seq<nat>, ghost s: Spec) returns (out: seq<Outcome>)
      requires Implements(s) && ops != [] && |clusters| == |ops| && ClearRun(s, ops[..|ops| - 1])
      modifies this
      ensures ClearRun(s, ops) <==> out == SpecRun(s, ops).1 && Implements(SpecRun(s, ops).0)
    {
      hide *;
      var n := |ops| - 1;
      ClearLast(s, ops);
      SpecRunLast(s, ops);
      out := Run(ops[..n], clusters[..n], s);
      var o := Step(ops[n], clusters[n], SpecRun(s, ops[..n]).0);
      SameLast(out, o, SpecStep(SpecRun(s, ops[..n]).0, ops[n]).1);
      out := out + [o];
    }
  }

  lemma SameLast(out: seq<Outcome>, o: Outcome, p: Outcome)
    ensures out + [o] == out + [p] <==> o == p
  {
    assert (out + [o])[|out|] == o && (out + [p])[|out|] == p;
  }

  lemma ClearAt(s: Spec, ops: seq<Op>, i: nat)
    requires ClearRun(s, ops) && i < |ops|
    ensures Clear(SpecRun(s, ops[..i]).0, ops[i])
  {
  }

  lemma SpecRunLast(s: Spec, ops: seq<Op>)
    requires ops != []
    ensures var n := |ops| - 1; var before := SpecRun(s, ops[..n]); var last := SpecStep(before.0, ops[n]);
      SpecRun(s, ops) == (last.0, before.1 + [last.1])
  {
  }

  lemma ClearLast(s: Spec, ops: seq<Op>)
    requires ops != []
    ensures var n := |ops| - 1; ClearRun(s, ops) <==> ClearRun(s, ops[..n]) && Clear(SpecRun(s, ops[..n]).0, ops[n])
  {
    hide Clear, SpecRun, SpecStep;
    var n := |ops| - 1;
    assert forall i :: 0 <= i < n ==> ops[..n][..i] == ops[..i];
  }

  // ---------------------------------------------------------------- where the machines part

  /** The bytes of a region on its last, partial page are covered and in reach. */
  lemma TailInside(rs: seq<Region>, i: nat, off: nat)
    requires i < |rs| && RegionOk(rs[i]) && rs[i].writable && off < rs[i].tail
    ensures var v := rs[i].limit;
      && OnSomeTail(rs, v) && off < PAGE_SIZE && ZeroPage()[off] == 0
      && (forall write, present :: Reach(rs, v, off, write, present))
      && (forall write :: Covers(rs, v, off, write))
  {
    var v := rs[i].limit;
    assert OnTail(rs[i], v);
    forall write: bool
      ensures Covers(rs, v, off, write) && forall present :: Reach(rs, v, off, write, present)
    {
      assert Rights(rs[i], write);
    }
  }

  /** Whatever the state: a word stored in the last, partial page of a region is zero for a child forked then. */
  method TailLost(kernel: Kernel, t: nat, c: nat, i: nat, off: nat, w: int, cluster: nat)
    returns (stored: Outcome, mine: Outcome, child: Outcome)
    requires kernel.Valid() && t in kernel.regions && c !in kernel.regions && i < |kernel.regions[t]|
    requires kernel.regions[t][i].writable && off < kernel.regions[t][i].tail
    modifies kernel
    ensures stored == Done && mine == Value(w) && child == Value(0)
  {
    hide *;
    var rs := kernel.regions[t];
    var v := rs[i].limit;
    KnownRegion(kernel, t, i);
    TailInside(rs, i, off);
    stored := kernel.StoreWord(t, v, off, w, cluster);
    mine := kernel.Load(t, v, off, cluster);
    child := ForkAndLoad(kernel, t, c, i, off, cluster);
  }

  lemma KnownRegion(kernel: Kernel, t: nat, i: nat)
    requires kernel.Valid() && t in kernel.regions && i < |kernel.regions[t]|
    ensures RegionOk(kernel.regions[t][i])
  {
  }

  method ForkAndLoad(kernel: Kernel, t: nat, c: nat, i: nat, off: nat, cluster: nat) returns (child: Outcome)
    requires kernel.Valid() && t in kernel.regions && c !in kernel.regions && i < |kernel.regions[t]|
    requires kernel.regions[t][i].writable && off < kernel.regions[t][i].tail
    modifies kernel
    ensures child == Value(0)
  {
    hide *;
    KnownRegion(kernel, t, i);
    TailInside(kernel.regions[t], i, off);
    var v := kernel.regions[t][i].limit;
    kernel.ForkTask(t, c);
    child := kernel.Load(c, v, off, cluster);
  }

  /** The eager machine gives the child the word. */
  lemma TailKept(s: Spec, t: nat, c: nat, i: nat, off: nat, w: int)
    requires t in s.regions && c !in s.regions && i < |s.regions[t]|
    requires RegionOk(s.regions[t][i]) && s.regions[t][i].writable && off < s.regions[t][i].tail
    requires |Get(s.mem, Key(t, s.regions[t][i].limit))| == PAGE_SIZE
    ensures var v := s.regions[t][i].limit;
      var s1 := SpecStep(s, Write(t, v, off, w)).0;
      var s2 := SpecStep(s1, Fork(t, c)).0;
      SpecStep(s2, Read(c, v, off)).1 == Value(w) && (w != 0 ==> !Clear(s1, Fork(t, c)))
  {
    var rs := s.regions[t];
    var v := rs[i].limit;
    TailInside(rs, i, off);
    hide Covers, OnSomeTail, Reach, ZeroPage;
    var s1 := SpecStep(s, Write(t, v, off, w)).0;
    assert s1.regions == s.regions && Key(t, v) in s1.tails && Get(s1.mem, Key(t, v))[off] == w;
    SpecFork(s1, t, c);
    ForkRegions(s1, t, c);
    var s2 := SpecStep(s1, Fork(t, c)).0;
    assert Get(s2.mem, Key(c, v)) == Get(s1.mem, Key(t, v));
  }

  lemma ForkRegions(s: Spec, src: nat, dst: nat)
    requires src in s.regions && dst !in s.regions
    ensures SpecStep(s, Fork(src, dst)).0.regions == s.regions[dst := s.regions[src]]
  {
  }

  /** A mapping of 5000 bytes, byte 4500 set to 7, a fork: the child reads 0, where an eager copy has 7. */
  method FiveThousandBytes() returns (child: Outcome)
    ensures child == Value(0)
  {
    var kernel := new Kernel();
    var r := Region(0, 0, 1, 904, 16, true, true);
    assert Insert([], 0, r) == [r];
    kernel.MmapRegion(0, 0, r);
    var stored, mine;
    stored, mine, child := TailLost(kernel, 0, 1, 0, 404, 7, 0);
  }

  /** A page stored and shared by a fork, then a write fault whose allocation fails: the two entries name one frame, and
      its count is 1. */
  method StarvedExample() returns (kernel: Kernel)
    ensures var a, b := Key(0, 0), Key(1, 0);
      && a in kernel.pt && b in kernel.pt && kernel.pt[a].ppn == kernel.pt[b].ppn && kernel.pt[a].ppn in kernel.frames
      && kernel.frames[kernel.pt[a].ppn].refcount == 1 && !RefsExact(kernel.pt, kernel.frames)
  {
    kernel := SharedPage();
    hide RefsExact, WriteSafe, Content, Inv, Lost;
    kernel.DoCow(Key(0, 0), 0, true);
  }

  method SharedPage() returns (kernel: Kernel)
    ensures fresh(kernel) && kernel.Valid()
    ensures var pt, a, b := kernel.pt, Key(0, 0), Key(1, 0);
      && a in pt && b in pt && pt[a] == pt[b] && pt[a].cow
      && pt[a].ppn in kernel.frames && kernel.frames[pt[a].ppn].refcount == 2
  {
    hide RefsExact, WriteSafe, Content, Reach, Shared, Lost, Placed;
    kernel := new Kernel();
    var r := Region(0, 0, 1, 0, 16, true, true);
    assert Insert([], 0, r) == [r];
    kernel.MmapRegion(0, 0, r);
    PageInReach(r);
    var stored := kernel.StoreWord(0, 0, 0, 7, 0);
    ghost var pt := kernel.pt;
    kernel.ForkTask(0, 1);
    TwoEntries(pt, kernel.pt, kernel.frames, r);
  }

  lemma PageInReach(r: Region)
    requires InRegion(r, 0) && r.readable && r.writable
    ensures forall present :: Reach([r], 0, 0, true, present)
  {
    assert Rights([r][0], true);
  }

  lemma TwoEntries(pt: PageTable, pt': PageTable, frames: Frames, r: Region)
    requires pt.Keys == {Key(0, 0)} && InRegion(r, 0) && Shared(pt, pt', 0, 1, Whole([r])) && RefsExact(pt', frames)
    ensures var a, b := Key(0, 0), Key(1, 0);
      && a in pt' && b in pt' && pt'[a] == pt'[b] && pt'[a].cow
      && pt'[a].ppn in frames && frames[pt'[a].ppn].refcount == 2
  {
    var a, b := Key(0, 0), Key(1, 0);
    assert InRegion([r][0], 0);
    forall k
      ensures k in pt' <==> k == a || k == b
    {
      assert SharedAt(pt, pt', 0, 1, Whole([r]), k);
    }
    assert SharedAt(pt, pt', 0, 1, Whole([r]), a) && SharedAt(pt, pt', 0, 1, Whole([r]), b);
    assert Mappers(pt', pt'[a].ppn) == {a, b};
  }

  // ---------------------------------------------------------------- entries and regions

  /** `tails` are the present pages that their region covers in part. */
  ghost predicate TailsAre(pt: PageTable, regions: Regions, tails: set<Key>)
  {
    forall k :: k in tails <==> k in pt && k.task in regions && OnSomeTail(regions[k.task], k.vpn)
  }

  /** The last, partial pages present, after each operation. */
  lemma MmapTails(pt: PageTable, regions: Regions, t: nat, at: nat, r: Region, tails: set<Key>)
    requires TailsAre(pt, regions, tails) && t in regions && at <= |regions[t]|
    requires forall v :: OnTail(r, v) ==> Key(t, v) !in pt
    ensures TailsAre(pt, regions[t := Insert(regions[t], at, r)], tails)
  {
    forall v
      ensures OnSomeTail(Insert(regions[t], at, r), v) <==> OnSomeTail(regions[t], v) || OnTail(r, v)
    {
      TailsInserted(regions[t], at, r, v);
    }
    hide OnSomeTail, Insert, OnTail;
  }

  lemma TailsInserted(rs: seq<Region>, at: nat, r: Region, v: nat)
    requires at <= |rs|
    ensures OnSomeTail(Insert(rs, at, r), v) <==> OnSomeTail(rs, v) || OnTail(r, v)
  {
    var rs' := Insert(rs, at, r);
    assert rs'[at] == r;
    if OnSomeTail(rs, v) {
      var n :| 0 <= n < |rs| && OnTail(rs[n], v);
      assert OnTail(rs'[if n < at then n else n + 1], v);
    }
    if OnSomeTail(rs', v) && !OnTail(r, v) {
      var n :| 0 <= n < |rs'| && OnTail(rs'[n], v);
      assert OnTail(rs[if n < at then n else n - 1], v);
    }
  }

  lemma MunmapTails(pt: PageTable, frames: Frames, regions: Regions, t: nat, at: nat, tails: set<Key>)
    requires Inv(pt, frames, regions) && TailsAre(pt, regions, tails) && t in regions && at < |regions[t]|
    ensures var r := regions[t][at]; var k := Key(t, r.limit);
      && (OnTail(r, r.limit) ==> (k in tails <==> k in pt) && (k !in pt ==> Content(pt, frames, k) == ZeroPage()))
      && (!(OnTail(r, r.limit) && k in pt) ==>
            TailsAre(Cut(pt, t, r.start, r.limit), regions[t := Remove(regions[t], at)], tails))
  {
    hide RefsExact, WriteSafe;
    var rs := regions[t];
    var r := rs[at];
    var rs' := Remove(rs, at);
    assert OnTail(r, r.limit) ==> OnSomeTail(rs, r.limit);
    forall v
      ensures OnSomeTail(rs, v) <==> OnSomeTail(rs', v) || OnTail(r, v)
      ensures OnSomeTail(rs', v) ==> !InRegion(r, v)
    {
      TailsRemoved(rs, at, v);
    }
    hide OnSomeTail, Remove, Placed, Sorted;
  }

  lemma TailsRemoved(rs: seq<Region>, at: nat, v: nat)
    requires Sorted(rs) && at < |rs|
    ensures OnSomeTail(rs, v) <==> OnSomeTail(Remove(rs, at), v) || OnTail(rs[at], v)
    ensures OnSomeTail(Remove(rs, at), v) ==> !InRegion(rs[at], v)
  {
    hide Sorted, Remove, OnTail;
    if OnSomeTail(Remove(rs, at), v) {
      var n :| 0 <= n < |Remove(rs, at)| && OnTail(Remove(rs, at)[n], v);
      TailLeft(rs, at, n, v);
    }
    if OnSomeTail(rs, v) && !OnTail(rs[at], v) {
      var m :| 0 <= m < |rs| && OnTail(rs[m], v);
      TailMoved(rs, at, m, v);
    }
  }

  lemma TailMoved(rs: seq<Region>, at: nat, m: nat, v: nat)
    requires at < |rs| && m < |rs| && m != at && OnTail(rs[m], v)
    ensures OnSomeTail(Remove(rs, at), v)
  {
    assert OnTail(Remove(rs, at)[if m < at then m else m - 1], v);
  }

  lemma TailLeft(rs: seq<Region>, at: nat, n: nat, v: nat)
    requires Sorted(rs) && at < |rs| && n < |Remove(rs, at)| && OnTail(Remove(rs, at)[n], v)
    ensures OnSomeTail(rs, v) && !InRegion(rs[at], v)
  {
    var m := if n < at then n else n + 1;
    assert OnTail(rs[m], v);
    OneRegion(rs, m, v);
  }

  lemma ForkZero(pt: PageTable, frames: Frames, regions: Regions, src: nat, tails: set<Key>)
    requires RefsExact(pt, frames) && TailsAre(pt, regions, tails) && src in regions
    ensures forall v :: OnSomeTail(regions[src], v) ==>
      Key(src, v) in tails || Content(pt, frames, Key(src, v)) == ZeroPage()
    ensures forall k :: k in tails && k.task == src ==> OnSomeTail(regions[src], k.vpn) && k == Key(src, k.vpn)
  {
  }

  /** After a fork everybody reads what an eager copy would give, except the child on last, partial pages. */
  ghost predicate ForkContent(pt: PageTable, frames: Frames, pt': PageTable, frames': Frames, src: nat, dst: nat,
                              rs: seq<Region>)
    requires RefsExact(pt, frames) && RefsExact(pt', frames')
  {
    forall x :: (Content(pt', frames', x) ==
      if x.task != dst then Content(pt, frames, x)
      else if OnSomeTail(rs, x.vpn) then ZeroPage() else Content(pt, frames, Key(src, x.vpn)))
  }

  ghost predicate Reads(pt: PageTable, frames: Frames, mem: map<Key, seq<int>>)
    requires RefsExact(pt, frames)
  {
    forall x :: Content(pt, frames, x) == Get(mem, x)
  }

  ghost predicate EagerCopy(mem: map<Key, seq<int>>, mem': map<Key, seq<int>>, src: nat, dst: nat)
  {
    forall x :: Get(mem', x) == Get(mem, if x.task == dst then Key(src, x.vpn) else x)
  }

  lemma ForkAt(pt: PageTable, frames: Frames, pt': PageTable, frames': Frames, src: nat, dst: nat, rs: seq<Region>,
               mem: map<Key, seq<int>>, mem': map<Key, seq<int>>, x: Key)
    requires RefsExact(pt, frames) && RefsExact(pt', frames') && ForkContent(pt, frames, pt', frames', src, dst, rs)
    requires Reads(pt, frames, mem) && EagerCopy(mem, mem', src, dst)
    ensures Content(pt', frames', x) == Get(mem', x) <==>
      (x.task == dst && OnSomeTail(rs, x.vpn) ==> Get(mem, Key(src, x.vpn)) == ZeroPage())
  {
    hide RefsExact, Content, OnSomeTail, Get, ZeroPage;
    assert Content(pt, frames, Key(src, x.vpn)) == Get(mem, Key(src, x.vpn));
    assert Content(pt, frames, x) == Get(mem, x);
  }

  lemma ZeroTail(pt: PageTable, frames: Frames, s: Spec, src: nat, v: nat)
    requires RefsExact(pt, frames) && TailsAre(pt, s.regions, s.tails) && Reads(pt, frames, s.mem)
    requires src in s.regions && OnSomeTail(s.regions[src], v) && TailsZero(s, src)
    ensures Get(s.mem, Key(src, v)) == ZeroPage()
  {
    ForkZero(pt, frames, s.regions, src, s.tails);
    hide RefsExact, Content, TailsAre, OnSomeTail, Get, ZeroPage;
    assert Content(pt, frames, Key(src, v)) == Get(s.mem, Key(src, v));
  }

  lemma ForkSame(pt: PageTable, frames: Frames, pt': PageTable, frames': Frames, src: nat, dst: nat, s: Spec,
                 mem: map<Key, seq<int>>)
    requires RefsExact(pt, frames) && RefsExact(pt', frames') && TailsAre(pt, s.regions, s.tails)
    requires src in s.regions && Reads(pt, frames, s.mem) && EagerCopy(s.mem, mem, src, dst)
    requires ForkContent(pt, frames, pt', frames', src, dst, s.regions[src]) && TailsZero(s, src)
    ensures Reads(pt', frames', mem)
  {
    hide RefsExact, Content, TailsAre, OnSomeTail, Get, ZeroPage, TailsZero, ForkContent, EagerCopy;
    forall x
      ensures Content(pt', frames', x) == Get(mem, x)
    {
      ForkAt(pt, frames, pt', frames', src, dst, s.regions[src], s.mem, mem, x);
      if OnSomeTail(s.regions[src], x.vpn) {
        ZeroTail(pt, frames, s, src, x.vpn);
      }
    }
  }

  /** The child reads what an eager copy would give it, exactly when the parent's last, partial pages are zero. */
  lemma ForkAgrees(pt: PageTable, frames: Frames, pt': PageTable, frames': Frames, src: nat, dst: nat, s: Spec,
                   mem: map<Key, seq<int>>)
    requires RefsExact(pt, frames) && RefsExact(pt', frames') && TailsAre(pt, s.regions, s.tails)
    requires src in s.regions && Reads(pt, frames, s.mem) && EagerCopy(s.mem, mem, src, dst)
    requires ForkContent(pt, frames, pt', frames', src, dst, s.regions[src])
    ensures TailsZero(s, src) <==> Reads(pt', frames', mem)
  {
    hide RefsExact, Content, TailsAre, OnSomeTail, Get, ZeroPage, ForkContent, EagerCopy;
    if TailsZero(s, src) {
      ForkSame(pt, frames, pt', frames', src, dst, s, mem);
    } else {
      var k :| k in s.tails && k.task == src && Get(s.mem, k) != ZeroPage();
      ForkZero(pt, frames, s.regions, src, s.tails);
      ForkAt(pt, frames, pt', frames', src, dst, s.regions[src], s.mem, mem, Key(dst, k.vpn));
      assert Content(pt', frames', Key(dst, k.vpn)) != Get(mem, Key(dst, k.vpn));
    }
  }

  lemma ForkTails(pt: PageTable, pt': PageTable, regions: Regions, src: nat, dst: nat, tails: set<Key>)
    requires TailsAre(pt, regions, tails) && src in regions && dst !in regions && Sorted(regions[src])
    requires Shared(pt, pt', src, dst, Whole(regions[src])) && forall k :: k in pt ==> k.task != dst
    ensures TailsAre(pt', regions[dst := regions[src]], tails)
  {
    forall v | OnSomeTail(regions[src], v)
      ensures !InSome(regions[src], v)
    {
      TailNotWhole(regions[src], v);
    }
    hide OnSomeTail, InSome, Sorted;
    forall k
      ensures var rs := regions[dst := regions[src]];
        k in tails <==> k in pt' && k.task in rs && OnSomeTail(rs[k.task], k.vpn)
    {
      assert SharedAt(pt, pt', src, dst, Whole(regions[src]), k);
    }
  }

  lemma ExitTails(pt: PageTable, regions: Regions, t: nat, tails: set<Key>)
    requires TailsAre(pt, regions, tails) && t in regions
    ensures TailsAre(WithoutTask(pt, t), regions - {t}, tails - Of(tails, t))
  {
    hide OnSomeTail;
  }

  lemma OpenInv(pt: PageTable, frames: Frames, regions: Regions)
    requires Inv(pt, frames, regions)
    ensures RefsExact(pt, frames) && forall t :: t in regions ==> Sorted(regions[t])
  {
  }

  lemma OtherTasks(pt: PageTable, frames: Frames, regions: Regions, t: nat)
    requires Inv(pt, frames, regions) && t !in regions
    ensures forall k :: k in pt ==> k.task != t
  {
  }

  /** The specification knows which last, partial pages are present, so it knows what is in reach. */
  lemma AccessKnown(pt: PageTable, frames: Frames, regions: Regions, k: Key, off: nat, write: bool, tails: set<Key>)
    requires Inv(pt, frames, regions) && TailsAre(pt, regions, tails) && k.task in regions
    ensures var rs := regions[k.task];
      && (Reach(rs, k.vpn, off, write, k in pt) <==>
            Covers(rs, k.vpn, off, write) || PastLimit(rs, k.vpn, off, write, k in tails))
      && !(Covers(rs, k.vpn, off, write) && PastLimit(rs, k.vpn, off, write, k in tails))
  {
    hide RefsExact, WriteSafe, Placed;
    var rs := regions[k.task];
    ReachSplit(rs, k.vpn, off, write, k in pt);
    if i :| 0 <= i < |rs| && OnTail(rs[i], k.vpn) {
      assert OnSomeTail(rs, k.vpn) && (k in tails <==> k in pt);
    }
  }

  lemma AccessTails(pt: PageTable, pt': PageTable, regions: Regions, k: Key, ok: bool, tails: set<Key>)
    requires TailsAre(pt, regions, tails) && k.task in regions && pt'.Keys == pt.Keys + if ok then {k} else {}
    ensures TailsAre(pt', regions, if ok && OnSomeTail(regions[k.task], k.vpn) then tails + {k} else tails)
  {
    hide OnSomeTail;
    assert forall x :: x in pt' <==> x in pt || (ok && x == k);
  }

  predicate Within(lo: nat, hi: nat, v: nat)
  {
    lo <= v < hi
  }

  /** The pages [lo, hi). */
  ghost function Between(lo: nat, hi: nat): iset<nat>
  {
    iset v: nat | Within(lo, hi, v)
  }

  lemma BetweenEnd(r: Region, v: nat)
    requires r.limit <= v && (v <= r.limit || v == r.start)
    ensures Between(r.start, v) == Between(r.start, r.limit)
  {
  }

  /** The whole pages of the regions. */
  ghost function Whole(rs: seq<Region>): iset<nat>
  {
    iset v: nat | InSome(rs, v)
  }

  /** Entry k when the pages have been shared: where `src` has an entry, it and that of `dst` name its frame and are
      copy-on-write; every other entry is as it was. */
  ghost predicate SharedAt(pt: PageTable, pt': PageTable, src: nat, dst: nat, pages: iset<nat>, k: Key)
  {
    if k.vpn in pages && Key(src, k.vpn) in pt && (k.task == src || k.task == dst)
    then k in pt' && pt'[k] == Pte(pt[Key(src, k.vpn)].ppn, false, true)
    else (k in pt' <==> k in pt) && (k in pt ==> pt'[k] == pt[k])
  }

  ghost predicate Shared(pt: PageTable, pt': PageTable, src: nat, dst: nat, pages: iset<nat>)
  {
    forall k :: SharedAt(pt, pt', src, dst, pages, k)
  }

  lemma SharedNone(pt: PageTable, src: nat, dst: nat, rs: seq<Region>, v: nat)
    ensures Shared(pt, pt, src, dst, Between(v, v)) && Shared(pt, pt, src, dst, Whole(rs[..0]))
  {
  }

  lemma SharedMore(pt: PageTable, pt1: PageTable, pt2: PageTable, src: nat, dst: nat, a: iset<nat>, b: iset<nat>)
    requires Shared(pt, pt1, src, dst, a) && Shared(pt1, pt2, src, dst, b)
    ensures Shared(pt, pt2, src, dst, a + b)
  {
    forall k
      ensures SharedAt(pt, pt2, src, dst, a + b, k)
    {
      assert SharedAt(pt, pt1, src, dst, a, k) && SharedAt(pt1, pt2, src, dst, b, k);
      assert SharedAt(pt, pt1, src, dst, a, Key(src, k.vpn));
    }
  }

  /** One more page shared. */
  lemma SharedStep(pt: PageTable, pt1: PageTable, pt2: PageTable, src: nat, dst: nat, lo: nat, v: nat)
    requires Shared(pt, pt1, src, dst, Between(lo, v)) && lo <= v
    requires var s, d := Key(src, v), Key(dst, v);
      if s in pt1 then var pte := Pte(pt1[s].ppn, false, true); pt2 == pt1[d := pte][s := pte] else pt2 == pt1
    ensures Shared(pt, pt2, src, dst, Between(lo, v + 1))
  {
    SharedMore(pt, pt1, pt2, src, dst, Between(lo, v), Between(v, v + 1));
    assert Between(lo, v) + Between(v, v + 1) == Between(lo, v + 1);
  }

  /** One more region shared. */
  lemma SharedRegion(pt: PageTable, pt1: PageTable, pt2: PageTable, src: nat, dst: nat, rs: seq<Region>, i: nat)
    requires i < |rs| && Shared(pt, pt1, src, dst, Whole(rs[..i]))
    requires Shared(pt1, pt2, src, dst, Between(rs[i].start, rs[i].limit))
    ensures Shared(pt, pt2, src, dst, Whole(rs[..i + 1]))
  {
    hide InSome, Shared;
    SharedMore(pt, pt1, pt2, src, dst, Whole(rs[..i]), Between(rs[i].start, rs[i].limit));
    InSomeStep(rs, i);
    forall v: nat
      ensures v in Whole(rs[..i + 1]) <==> v in Whole(rs[..i]) + Between(rs[i].start, rs[i].limit)
    {
      assert InSome(rs[..i + 1], v) <==> InSome(rs[..i], v) || InRegion(rs[i], v);
    }
    assert Whole(rs[..i + 1]) == Whole(rs[..i]) + Between(rs[i].start, rs[i].limit);
  }

  ghost function WithoutTask(pt: PageTable, t: nat): PageTable
  {
    map k | k in pt && k.task != t :: pt[k]
  }

  lemma InsertRegion(pt: PageTable, frames: Frames, regions: Regions, t: nat, at: nat, r: Region)
    requires Inv(pt, frames, regions) && t in regions && at <= |regions[t]| && Sorted(Insert(regions[t], at, r))
    ensures Inv(pt, frames, regions[t := Insert(regions[t], at, r)])
  {
    hide RefsExact, WriteSafe;
    var rs := regions[t];
    var rs' := Insert(rs, at, r);
    forall k | k in pt && k.task == t
      ensures PlacedIn(rs', k.vpn, pt[k])
    {
      var n := PresentRegion(pt, frames, regions, k);
      assert rs'[if n < at then n else n + 1] == rs[n];
    }
  }

  /** A region with a place of its own had no pages before. */
  lemma NewRegionEmpty(pt: PageTable, frames: Frames, regions: Regions, t: nat, at: nat, r: Region)
    requires Inv(pt, frames, regions) && t in regions && at <= |regions[t]| && Sorted(Insert(regions[t], at, r))
    ensures forall v :: InRegion(r, v) || OnTail(r, v) ==>
      Key(t, v) !in pt && Content(pt, frames, Key(t, v)) == ZeroPage()
  {
    hide RefsExact, WriteSafe, Content;
    var rs := regions[t];
    var rs' := Insert(rs, at, r);
    assert rs'[at] == r;
    assert forall n :: 0 <= n < |rs| ==> rs[n] == rs'[if n < at then n else n + 1];
    forall v | InRegion(r, v) || OnTail(r, v)
      ensures Key(t, v) !in pt && Content(pt, frames, Key(t, v)) == ZeroPage()
    {
      assert !InSome(rs, v) && !OnSomeTail(rs, v);
      OutsideZero(pt, frames, regions, Key(t, v));
    }
  }

  lemma SpecFork(s: Spec, src: nat, dst: nat)
    requires src in s.regions && dst !in s.regions
    ensures var s' := SpecStep(s, Fork(src, dst)).0;
      forall x :: Get(s'.mem, x) == Get(s.mem, if x.task == dst then Key(src, x.vpn) else x)
  {
  }

  /** The page table without the entries of pages [lo, hi) of task t. */
  ghost function Cut(pt: PageTable, t: nat, lo: nat, hi: nat): PageTable
  {
    map k | k in pt && !(k.task == t && lo <= k.vpn < hi) :: pt[k]
  }

  ghost predicate Erased(pt: PageTable, frames: Frames, pt': PageTable, frames': Frames, t: nat, lo: nat, hi: nat)
    requires RefsExact(pt, frames) && RefsExact(pt', frames')
  {
    forall x :: Content(pt', frames', x) == if x.task == t && lo <= x.vpn < hi then ZeroPage()
      else Content(pt, frames, x)
  }

  lemma ErasedNone(pt: PageTable, live: PageTable, frames: Frames, t: nat, lo: nat)
    requires RefsExact(live, frames)
    ensures Erased(live, frames, live, frames, t, lo, lo)
    ensures Cut(pt, t, lo, lo) == pt && Cut(live, t, lo, lo) == live
  {
  }

  lemma ErasedStep(pt: PageTable, frames: Frames, pt1: PageTable, frames1: Frames, pt2: PageTable, frames2: Frames,
                   t: nat, lo: nat, v: nat)
    requires RefsExact(pt, frames) && RefsExact(pt1, frames1) && WriteSafe(pt1, frames1) && lo <= v
    requires Erased(pt, frames, pt1, frames1, t, lo, v)
    requires var k := Key(t, v);
      if k in pt1 then pt2 == pt1 - {k} && frames2 == DropRef(frames1, pt1[k].ppn) else pt2 == pt1 && frames2 == frames1
    ensures RefsExact(pt2, frames2) && Erased(pt, frames, pt2, frames2, t, lo, v + 1)
  {
    hide RefsExact, WriteSafe, Content;
    if Key(t, v) in pt1 {
      CountPositive(pt1, frames1, Key(t, v));
      Unmap(pt1, frames1, Key(t, v));
    } else {
      AbsentZero(pt1, frames1, Key(t, v));
    }
  }

  lemma ErasedAll(pt: PageTable, live: PageTable, frames: Frames, live': PageTable, frames': Frames, t: nat, r: Region,
                  hi: nat)
    requires RefsExact(live, frames) && RefsExact(live', frames')
    requires Erased(live, frames, live', frames', t, r.start, hi) && r.limit <= hi && (hi <= r.limit || hi == r.start)
    ensures Erased(live, frames, live', frames', t, r.start, r.limit)
    ensures Cut(pt, t, r.start, hi) == Cut(pt, t, r.start, r.limit)
    ensures Cut(live, t, r.start, hi) == Cut(live, t, r.start, r.limit)
  {
  }

  lemma CutPlaced(pt: PageTable, regions: Regions, t: nat, lo: nat, hi: nat)
    requires Placed(pt, regions)
    ensures Placed(Cut(pt, t, lo, hi), regions)
  {
  }

  /** A region whose whole pages are gone can go, if and only if its last, partial page is not present. */
  lemma RemoveRegion(pt: PageTable, frames: Frames, regions: Regions, t: nat, at: nat)
    requires Inv(pt, frames, regions) && t in regions && at < |regions[t]|
    requires forall k :: k in pt && k.task == t ==> !InRegion(regions[t][at], k.vpn)
    ensures var r := regions[t][at];
      Inv(pt, frames, regions[t := Remove(regions[t], at)]) <==> !(OnTail(r, r.limit) && Key(t, r.limit) in pt)
  {
    hide RefsExact, WriteSafe;
    var rs := regions[t];
    var rs' := Remove(rs, at);
    var r := rs[at];
    if OnTail(r, r.limit) && Key(t, r.limit) in pt {
      Stranded(rs, at, pt[Key(t, r.limit)]);
      assert !Placed(pt, regions[t := rs']);
    } else {
      forall k | k in pt && k.task == t
        ensures PlacedIn(rs', k.vpn, pt[k])
      {
        var n := PresentRegion(pt, frames, regions, k);
        assert n != at;
        assert rs'[if n < at then n else n - 1] == rs[n];
      }
      hide PlacedIn;
    }
  }

  /** The last, partial page of a region has no place without it. */
  lemma Stranded(rs: seq<Region>, at: nat, pte: Pte)
    requires Sorted(rs) && at < |rs| && OnTail(rs[at], rs[at].limit)
    ensures !PlacedIn(Remove(rs, at), rs[at].limit, pte)
  {
    var rs' := Remove(rs, at);
    OneRegion(rs, at, rs[at].limit);
    assert forall n :: 0 <= n < |rs'| ==> rs'[n] == rs[if n < at then n else n + 1];
  }

  lemma CutStep(pt: PageTable, t: nat, lo: nat, v: nat)
    requires lo <= v
    ensures var k := Key(t, v);
      && (k in Cut(pt, t, lo, v) <==> k in pt)
      && (k in pt ==> Cut(pt, t, lo, v)[k] == pt[k])
      && Cut(pt, t, lo, v + 1) == (if k in pt then Cut(pt, t, lo, v) - {k} else Cut(pt, t, lo, v))
  {
  }

  /** While task t with regions `all` is torn down and `rs` are left: `live` has lost the whole pages of the
      regions already detached, and nothing else. */
  ghost predicate Exiting(pt: PageTable, live: PageTable, all: seq<Region>, rs: seq<Region>, t: nat)
  {
    && (forall k :: k in live ==> k in pt && live[k] == pt[k])
    && (forall k :: k in pt ==> (k in live <==> k.task != t || !InSome(all, k.vpn) || InSome(rs, k.vpn)))
    && (forall v :: InSome(rs, v) ==> InSome(all, v))
  }

  ghost predicate OthersSame(pt: PageTable, frames: Frames, live: PageTable, frames': Frames, t: nat)
    requires RefsExact(pt, frames) && RefsExact(live, frames')
  {
    forall x: Key :: x.task != t ==> Content(live, frames', x) == Content(pt, frames, x)
  }

  lemma ExitStart(pt: PageTable, frames: Frames, rs: seq<Region>, t: nat)
    requires RefsExact(pt, frames)
    ensures Exiting(pt, pt, rs, rs, t) && OthersSame(pt, frames, pt, frames, t)
  {
  }

  lemma FirstGone(rs: seq<Region>)
    requires rs != [] && Sorted(rs)
    ensures Sorted(Remove(rs, 0))
    ensures forall v :: InSome(rs, v) <==> InRegion(rs[0], v) || InSome(Remove(rs, 0), v)
    ensures forall v :: InSome(Remove(rs, 0), v) ==> !InRegion(rs[0], v)
  {
    assert Remove(rs, 0) == rs[1..];
    forall v
      ensures InSome(rs, v) <==> InRegion(rs[0], v) || InSome(rs[1..], v)
      ensures InSome(rs[1..], v) ==> !InRegion(rs[0], v)
    {
      FirstOrLater(rs, v);
    }
  }

  lemma FirstOrLater(rs: seq<Region>, v: nat)
    requires rs != [] && Sorted(rs)
    ensures InSome(rs, v) <==> InRegion(rs[0], v) || InSome(rs[1..], v)
    ensures InSome(rs[1..], v) ==> !InRegion(rs[0], v)
  {
    if InSome(rs[1..], v) {
      var n :| 0 <= n < |rs[1..]| && InRegion(rs[1..][n], v);
      assert InRegion(rs[n + 1], v);
      OneRegion(rs, n + 1, v);
    }
    if InSome(rs, v) && !InRegion(rs[0], v) {
      var n :| 0 <= n < |rs| && InRegion(rs[n], v);
      assert InRegion(rs[1..][n - 1], v);
    }
  }

  lemma ExitStep(pt: PageTable, live: PageTable, all: seq<Region>, rs: seq<Region>, t: nat)
    requires Exiting(pt, live, all, rs, t) && rs != [] && Sorted(rs)
    ensures forall v :: InRegion(rs[0], v) ==> (Key(t, v) in pt <==> Key(t, v) in live)
    ensures forall k :: k in pt && k in live ==> pt[k] == live[k]
    ensures Exiting(pt, Cut(live, t, rs[0].start, rs[0].limit), all, Remove(rs, 0), t)
    ensures Sorted(Remove(rs, 0))
  {
    FirstGone(rs);
    hide InSome, Sorted, Remove;
  }

  lemma ErasedOthers(pt: PageTable, frames: Frames, pt1: PageTable, frames1: Frames, pt2: PageTable, frames2: Frames,
                     t: nat, lo: nat, hi: nat)
    requires RefsExact(pt, frames) && RefsExact(pt1, frames1) && RefsExact(pt2, frames2)
    requires OthersSame(pt, frames, pt1, frames1, t) && Erased(pt1, frames1, pt2, frames2, t, lo, hi)
    ensures OthersSame(pt, frames, pt2, frames2, t)
  {
    hide Content, RefsExact;
  }

  /** The frames of the last, partial pages of task t that are present. */
  ghost function TailFrames(pt: PageTable, rs: seq<Region>, t: nat): set<nat>
  {
    set k | k in pt && k.task == t && OnSomeTail(rs, k.vpn) :: pt[k].ppn
  }

  /** A last, partial page has a frame of its own, so as many frames are lost as such pages were present. */
  lemma TailCount(pt: PageTable, frames: Frames, regions: Regions, t: nat, tails: set<Key>)
    requires Inv(pt, frames, regions) && t in regions && TailsAre(pt, regions, tails)
    ensures |Lost(pt, frames) + TailFrames(pt, regions[t], t)| == |Lost(pt, frames)| + |Of(tails, t)|
  {
    hide RefsExact, WriteSafe, Placed, Sorted, OnSomeTail, Lost;
    var own := Of(tails, t);
    forall k | k in own
      ensures k in pt && pt[k].ppn in frames && frames[pt[k].ppn].refcount == 1 && pt[k].ppn !in Lost(pt, frames)
    {
      OwnFrame(pt, frames, regions, k);
    }
    FrameCount(pt, frames, own);
    assert TailFrames(pt, regions[t], t) == set k | k in own :: pt[k].ppn;
    assert Lost(pt, frames) !! TailFrames(pt, regions[t], t);
  }

  lemma OwnFrame(pt: PageTable, frames: Frames, regions: Regions, k: Key)
    requires Inv(pt, frames, regions) && k in pt && OnSomeTail(regions[k.task], k.vpn)
    ensures pt[k].ppn in frames && frames[pt[k].ppn].refcount == 1 && pt[k].ppn !in Lost(pt, frames)
  {
    var n := PresentRegion(pt, frames, regions, k);
    TailNotWhole(regions[k.task], k.vpn);
    assert k in Mappers(pt, pt[k].ppn);
  }

  lemma {:induction false} FrameCount(pt: PageTable, frames: Frames, keys: set<Key>)
    requires RefsExact(pt, frames)
    requires forall k :: k in keys ==> k in pt && pt[k].ppn in frames && frames[pt[k].ppn].refcount == 1
    ensures |set k | k in keys :: pt[k].ppn| == |keys|
  {
    if x :| x in keys {
      FrameCount(pt, frames, keys - {x});
      forall k | k in keys && pt[k].ppn == pt[x].ppn
        ensures k == x
      {
        SoleMapper(pt, frames, x, k);
      }
      assert (set k | k in keys :: pt[k].ppn) == (set k | k in keys - {x} :: pt[k].ppn) + {pt[x].ppn};
    }
  }

  /** What is left of a task without regions are its last, partial pages, and each has a frame of its own. */
  lemma OnlyTails(pt: PageTable, frames: Frames, live: PageTable, regions: Regions, t: nat, k: Key)
    requires Inv(pt, frames, regions) && t in regions && Exiting(pt, live, regions[t], [], t) && k in pt && k.task == t
    ensures k in live <==> OnSomeTail(regions[t], k.vpn)
    ensures OnSomeTail(regions[t], k.vpn) ==> !pt[k].cow
  {
    hide RefsExact, WriteSafe;
    var rs := regions[t];
    var n := PresentRegion(pt, frames, regions, k);
    OneRegion(rs, n, k.vpn);
    assert !InSome([], k.vpn);
    assert InRegion(rs[n], k.vpn) ==> InSome(rs, k.vpn);
    assert OnTail(rs[n], k.vpn) ==> OnSomeTail(rs, k.vpn);
  }

  /** The entries of process t that are left, with the frames they name. */
  lemma LeftOver(pt: PageTable, frames: Frames, live: PageTable, regions: Regions, t: nat)
    requires Inv(pt, frames, regions) && t in regions && Exiting(pt, live, regions[t], [], t)
    ensures forall k :: k in live && k.task == t ==> !live[k].cow
    ensures (set k | k in live && k.task == t :: live[k].ppn) == TailFrames(pt, regions[t], t)
  {
    forall k | k in pt && k.task == t
      ensures k in live <==> OnSomeTail(regions[t], k.vpn)
      ensures OnSomeTail(regions[t], k.vpn) ==> !pt[k].cow
    {
      OnlyTails(pt, frames, live, regions, t, k);
    }
    hide RefsExact, WriteSafe, Placed, Sorted, OnSomeTail, InSome;
  }

  /** Entries with frames of their own can vanish without their frames: the counts of the others stay right, and the
      frames are lost. */
  lemma Dropped(live: PageTable, frames: Frames, t: nat)
    requires RefsExact(live, frames) && WriteSafe(live, frames) && forall k :: k in live && k.task == t ==> !live[k].cow
    ensures var rest := WithoutTask(live, t);
      && RefsExact(rest, frames) && WriteSafe(rest, frames)
      && Lost(rest, frames) == Lost(live, frames) + (set k | k in live && k.task == t :: live[k].ppn)
  {
    var rest := WithoutTask(live, t);
    forall p | p in frames
      ensures if exists k :: k in live && k.task == t && live[k].ppn == p then Mappers(rest, p) == {}
              else Mappers(rest, p) == Mappers(live, p)
      ensures (exists k :: k in live && k.task == t && live[k].ppn == p) ==> Mappers(live, p) != {}
    {
      DroppedAt(live, frames, t, p);
    }
    assert forall k :: k in live && k.task == t ==> live[k].ppn in frames;
  }

  lemma DroppedAt(live: PageTable, frames: Frames, t: nat, p: nat)
    requires RefsExact(live, frames) && WriteSafe(live, frames) && forall k :: k in live && k.task == t ==> !live[k].cow
    ensures if exists k :: k in live && k.task == t && live[k].ppn == p then Mappers(WithoutTask(live, t), p) == {}
            else Mappers(WithoutTask(live, t), p) == Mappers(live, p)
    ensures (exists k :: k in live && k.task == t && live[k].ppn == p) ==> Mappers(live, p) != {}
  {
    if k :| k in live && k.task == t && live[k].ppn == p {
      assert k in Mappers(live, p);
      forall x | x in live && live[x].ppn == p
        ensures x == k
      {
        SoleMapper(live, frames, k, x);
      }
    }
  }

  /** The other tasks keep their entries and their contents. */
  lemma OthersKept(pt: PageTable, frames: Frames, live: PageTable, frames': Frames, all: seq<Region>, t: nat)
    requires RefsExact(pt, frames) && RefsExact(live, frames')
    requires Exiting(pt, live, all, [], t) && OthersSame(pt, frames, live, frames', t)
    ensures WithoutTask(pt, t) == WithoutTask(live, t)
    ensures forall k :: k in WithoutTask(pt, t) ==>
      pt[k].ppn in frames' && frames'[pt[k].ppn].data == Content(pt, frames, k)
  {
    hide InSome;
    forall k | k in WithoutTask(pt, t)
      ensures k in live && live[k] == pt[k] && pt[k].ppn in frames' && frames'[pt[k].ppn].data == Content(pt, frames, k)
    {
      assert k in live && Content(live, frames', k) == Content(pt, frames, k);
    }
  }

  /** The end of `vmm_destroy`. */
  lemma ExitDone(pt: PageTable, frames: Frames, live: PageTable, frames': Frames, regions: Regions, t: nat)
    requires Inv(pt, frames, regions) && t in regions && RefsExact(live, frames') && WriteSafe(live, frames')
    requires Exiting(pt, live, regions[t], [], t) && OthersSame(pt, frames, live, frames', t)
    ensures var pt' := WithoutTask(pt, t);
      && Inv(pt', frames', regions - {t})
      && Lost(pt', frames') == Lost(live, frames') + TailFrames(pt, regions[t], t)
      && (forall x :: Content(pt', frames', x) == if x.task == t then ZeroPage() else Content(pt, frames, x))
  {
    OthersKept(pt, frames, live, frames', regions[t], t);
    LeftOver(pt, frames, live, regions, t);
    Dropped(live, frames', t);
    GonePlaced(pt, regions, t);
    ExitContent(pt, frames, frames', t);
    hide RefsExact, WriteSafe, Content, Exiting, OthersSame, Placed, OnSomeTail, Sorted, Lost, TailFrames;
  }

  lemma ExitContent(pt: PageTable, frames: Frames, frames': Frames, t: nat)
    requires RefsExact(pt, frames) && RefsExact(WithoutTask(pt, t), frames')
    requires forall k :: k in WithoutTask(pt, t) ==>
      pt[k].ppn in frames' && frames'[pt[k].ppn].data == Content(pt, frames, k)
    ensures forall x ::
      Content(WithoutTask(pt, t), frames', x) == if x.task == t then ZeroPage() else Content(pt, frames, x)
  {
  }

  lemma GonePlaced(pt: PageTable, regions: Regions, t: nat)
    requires Placed(pt, regions)
    ensures Placed(WithoutTask(pt, t), regions - {t})
  {
    forall k | k in WithoutTask(pt, t)
      ensures PlacedIn((regions - {t})[k.task], k.vpn, pt[k])
    {
      assert PlacedIn(regions[k.task], k.vpn, pt[k]);
    }
  }

  lemma TailNotWhole(rs: seq<Region>, vpn: nat)
    requires Sorted(rs) && OnSomeTail(rs, vpn)
    ensures !InSome(rs, vpn)
  {
    var n :| 0 <= n < |rs| && OnTail(rs[n], vpn);
    OneRegion(rs, n, vpn);
  }

  /** The pages [lo, hi) of dst read as those of src did, and all else is as it was. */
  ghost predicate Copied(pt: PageTable, frames: Frames, pt': PageTable, frames': Frames, src: nat, dst: nat, lo: nat,
                         hi: nat)
    requires RefsExact(pt, frames) && RefsExact(pt', frames')
  {
    forall x :: Content(pt', frames', x) == Content(pt, frames, if x.task == dst &&
      lo <= x.vpn < hi then Key(src, x.vpn) else x)
  }

  lemma CopiedNone(pt: PageTable, frames: Frames, src: nat, dst: nat, lo: nat)
    requires RefsExact(pt, frames)
    ensures Copied(pt, frames, pt, frames, src, dst, lo, lo)
  {
  }

  lemma CopiedStep(pt: PageTable, frames: Frames, pt1: PageTable, frames1: Frames, pt2: PageTable, frames2: Frames,
                   regions: Regions, src: nat, dst: nat, lo: nat, v: nat)
    requires RefsExact(pt, frames) && Inv(pt1, frames1, regions) && src != dst && lo <= v
    requires Copied(pt, frames, pt1, frames1, src, dst, lo, v) && Key(dst, v) !in pt1
    requires var s, d := Key(src, v), Key(dst, v);
      if s in pt1 then
        pt2 == pt1[d := Pte(pt1[s].ppn, false, true)][s := Pte(pt1[s].ppn, false, true)] &&
          frames2 == AddRef(frames1, pt1[s].ppn)
      else pt2 == pt1 && frames2 == frames1
    ensures RefsExact(pt2, frames2) && Copied(pt, frames, pt2, frames2, src, dst, lo, v + 1)
  {
    hide RefsExact, WriteSafe, Content;
    var s, d := Key(src, v), Key(dst, v);
    if s in pt1 {
      CountPositive(pt1, frames1, s);
      Share(pt1, frames1, s, d);
    } else {
      AbsentZero(pt1, frames1, s);
      AbsentZero(pt1, frames1, d);
    }
  }

  lemma CopiedAll(pt: PageTable, frames: Frames, pt': PageTable, frames': Frames, src: nat, dst: nat, r: Region,
                  hi: nat)
    requires RefsExact(pt, frames) && RefsExact(pt', frames')
    requires Copied(pt, frames, pt', frames', src, dst, r.start, hi)
    requires r.limit <= hi && (hi <= r.limit || hi == r.start)
    ensures forall x :: Content(pt', frames', x) == Content(pt, frames, if x.task == dst &&
      InRegion(r, x.vpn) then Key(src, x.vpn) else x)
  {
  }

  /** The pages of dst in the regions rs read as those of src did, and all else is as it was. */
  ghost predicate Forked(pt: PageTable, frames: Frames, pt': PageTable, frames': Frames, src: nat, dst: nat,
                         rs: seq<Region>)
    requires RefsExact(pt, frames) && RefsExact(pt', frames')
  {
    forall x :: Content(pt', frames', x) == Content(pt, frames, if x.task == dst &&
      InSome(rs, x.vpn) then Key(src, x.vpn) else x)
  }

  lemma ForkedNone(pt: PageTable, frames: Frames, src: nat, dst: nat, rs: seq<Region>)
    requires RefsExact(pt, frames)
    ensures Forked(pt, frames, pt, frames, src, dst, rs[..0])
  {
  }

  lemma ForkedStep(pt: PageTable, frames: Frames, pt1: PageTable, frames1: Frames, pt2: PageTable, frames2: Frames,
                   src: nat, dst: nat, rs: seq<Region>, i: nat)
    requires RefsExact(pt, frames) && RefsExact(pt1, frames1) && RefsExact(pt2, frames2) && src != dst && i < |rs|
    requires Forked(pt, frames, pt1, frames1, src, dst, rs[..i])
    requires forall x :: (Content(pt2, frames2, x)
      == Content(pt1, frames1, if x.task == dst && InRegion(rs[i], x.vpn) then Key(src, x.vpn) else x))
    ensures Forked(pt, frames, pt2, frames2, src, dst, rs[..i + 1])
  {
    hide RefsExact, Content, InSome;
    InSomeStep(rs, i);
  }

  lemma ForkedAll(pt: PageTable, frames: Frames, pt': PageTable, frames': Frames, regions: Regions, src: nat, dst: nat)
    requires Inv(pt, frames, regions) && RefsExact(pt', frames') && src in regions && dst !in regions
    requires Forked(pt, frames, pt', frames', src, dst, regions[src])
    ensures forall x :: (Content(pt', frames', x) ==
      if x.task != dst then Content(pt, frames, x)
      else if OnSomeTail(regions[src], x.vpn) then ZeroPage() else Content(pt, frames, Key(src, x.vpn)))
  {
    hide RefsExact, Content, InSome, OnSomeTail;
    forall x: Key | x.task == dst
      ensures Content(pt', frames', x)
           == if OnSomeTail(regions[src], x.vpn) then ZeroPage() else Content(pt, frames, Key(src, x.vpn))
    {
      AbsentZero(pt, frames, x);
      if OnSomeTail(regions[src], x.vpn) {
        TailNotWhole(regions[src], x.vpn);
      } else if !InSome(regions[src], x.vpn) {
        OutsideZero(pt, frames, regions, Key(src, x.vpn));
      }
    }
  }

  lemma InSomeStep(rs: seq<Region>, i: nat)
    requires i < |rs|
    ensures forall v :: InSome(rs[..i + 1], v) <==> InSome(rs[..i], v) || InRegion(rs[i], v)
  {
    forall v
      ensures InSome(rs[..i + 1], v) <==> InSome(rs[..i], v) || InRegion(rs[i], v)
    {
      if InRegion(rs[i], v) { assert InRegion(rs[..i + 1][i], v); }
      if InSome(rs[..i], v) {
        var n :| 0 <= n < |rs[..i]| && InRegion(rs[..i][n], v);
        assert InRegion(rs[..i + 1][n], v);
      }
    }
  }

  lemma AbsentZero(pt: PageTable, frames: Frames, k: Key)
    requires RefsExact(pt, frames) && k !in pt
    ensures Content(pt, frames, k) == ZeroPage()
  {
  }

  /** Pages outside every region read as zero. */
  lemma OutsideZero(pt: PageTable, frames: Frames, regions: Regions, k: Key)
    requires Inv(pt, frames, regions) && k.task in regions
    requires !InSome(regions[k.task], k.vpn) && !OnSomeTail(regions[k.task], k.vpn)
    ensures k !in pt && Content(pt, frames, k) == ZeroPage()
  {
    if k in pt { var n := PresentRegion(pt, frames, regions, k); }
  }

  /** Giving a task without pages a list of regions. */
  lemma MoreRegions(pt: PageTable, frames: Frames, regions: Regions, t: nat, rs: seq<Region>)
    requires Inv(pt, frames, regions) && Sorted(rs) && forall k :: k in pt ==> k.task != t
    ensures Inv(pt, frames, regions[t := rs])
  {
  }

  /** The child's list of regions grows by one. */
  lemma GrowRegions(pt: PageTable, frames: Frames, regions: Regions, t: nat, rs: seq<Region>, i: nat)
    requires Inv(pt, frames, regions) && t in regions && Sorted(rs) && i < |rs| && regions[t] == rs[..i]
    ensures Inv(pt, frames, regions[t := rs[..i + 1]])
    ensures forall k :: k in pt && k.task == t ==> !InRegion(rs[i], k.vpn)
  {
    hide RefsExact, WriteSafe;
    forall k | k in pt && k.task == t
      ensures PlacedIn(rs[..i + 1], k.vpn, pt[k]) && !InRegion(rs[i], k.vpn)
    {
      var n := PresentRegion(pt, frames, regions, k);
      assert rs[..i + 1][n] == rs[..i][n];
      if InRegion(rs[i], k.vpn) { SameRegion(rs, i, n, k.vpn); }
    }
  }

  /** The region of a present page. */
  lemma PresentRegion(pt: PageTable, frames: Frames, regions: Regions, k: Key) returns (n: nat)
    requires Inv(pt, frames, regions) && k in pt
    ensures n < |regions[k.task]| && Belongs(regions[k.task][n], k.vpn, pt[k])
  {
    assert PlacedIn(regions[k.task], k.vpn, pt[k]);
    n :| 0 <= n < |regions[k.task]| && Belongs(regions[k.task][n], k.vpn, pt[k]);
  }

  /** No region but number n has to do with the page. */
  ghost predicate Sole(rs: seq<Region>, n: nat, vpn: nat)
  {
    forall i :: 0 <= i < |rs| && (InRegion(rs[i], vpn) || OnTail(rs[i], vpn)) ==> i == n
  }

  lemma OneRegion(rs: seq<Region>, n: nat, vpn: nat)
    requires Sorted(rs) && n < |rs| && (InRegion(rs[n], vpn) || OnTail(rs[n], vpn))
    ensures Sole(rs, n, vpn)
  {
    forall i | 0 <= i < |rs| && (InRegion(rs[i], vpn) || OnTail(rs[i], vpn))
      ensures i == n
    {
      SameRegion(rs, i, n, vpn);
    }
  }

  lemma FirstRegion(rs: seq<Region>, n: nat, vpn: nat)
    requires Sorted(rs) && n <= |rs| && (n < |rs| ==> vpn < rs[n].end)
    requires forall j :: 0 <= j < n ==> rs[j].end <= vpn
    ensures Sole(rs, n, vpn)
    ensures n < |rs| ==> (rs[n].start <= vpn <= rs[n].limit <==> InRegion(rs[n], vpn) || OnTail(rs[n], vpn))
  {
    assert forall i :: n < i < |rs| ==> rs[n].end <= rs[i].begin;
  }

  /** What is in reach, what is covered and what is past the limit depends on that region alone. */
  lemma ReachHere(rs: seq<Region>, n: nat, vpn: nat, off: nat, write: bool, present: bool)
    requires n <= |rs| && Sole(rs, n, vpn)
    ensures Reach(rs, vpn, off, write, present) <==>
      n < |rs| && Rights(rs[n], write) &&
      (InRegion(rs[n], vpn) || (OnTail(rs[n], vpn) && (present || off <= rs[n].tail)))
  {
  }

  /** What is in reach is covered by the region or past its limit, and never both. */
  lemma ReachSplit(rs: seq<Region>, vpn: nat, off: nat, write: bool, present: bool)
    requires Sorted(rs)
    ensures Reach(rs, vpn, off, write, present) <==>
      Covers(rs, vpn, off, write) || PastLimit(rs, vpn, off, write, present)
    ensures !(Covers(rs, vpn, off, write) && PastLimit(rs, vpn, off, write, present))
  {
    if i :| 0 <= i < |rs| && (InRegion(rs[i], vpn) || OnTail(rs[i], vpn)) {
      OneRegion(rs, i, vpn);
    }
  }

  /** After copy-on-write the page is still placed in its region. */
  lemma RePlaced(pt: PageTable, pt': PageTable, regions: Regions, k: Key, i: nat)
    requires Placed(pt, regions) && k in pt && pt'.Keys == pt.Keys
    requires forall x :: x in pt && x != k ==> pt'[x] == pt[x]
    requires i < |regions[k.task]| && Belongs(regions[k.task][i], k.vpn, pt'[k])
    ensures Placed(pt', regions)
  {
    forall x | x in pt'
      ensures x.task in regions && PlacedIn(regions[x.task], x.vpn, pt'[x])
    {
      if x != k { assert PlacedIn(regions[x.task], x.vpn, pt[x]); }
    }
  }

  /** A page touched for the first time is placed in the region that served it. */
  lemma FirstTouch(pt: PageTable, pt': PageTable, regions: Regions, k: Key, i: nat)
    requires Placed(pt, regions) && k.task in regions && k !in pt
    requires i < |regions[k.task]| && regions[k.task][i].readable
    requires InRegion(regions[k.task][i], k.vpn) || OnTail(regions[k.task][i], k.vpn)
    requires exists p :: pt' == pt[k := Pte(p, regions[k.task][i].writable, false)]
    ensures Placed(pt', regions)
  {
    var p :| pt' == pt[k := Pte(p, regions[k.task][i].writable, false)];
    forall x | x in pt
      ensures x.task in regions && PlacedIn(regions[x.task], x.vpn, pt'[x])
    {
      assert PlacedIn(regions[x.task], x.vpn, pt[x]);
    }
    assert Belongs(regions[k.task][i], k.vpn, pt'[k]);
  }

  lemma CountPositive(pt: PageTable, frames: Frames, k: Key)
    requires RefsExact(pt, frames) && k in pt
    ensures pt[k].ppn in frames && frames[pt[k].ppn].refcount >= 1 && |frames[pt[k].ppn].data| == PAGE_SIZE
  {
  }
}
