/** The regions of one address space (kernel/mm/vm_region.c, kernel/mm/vmm.c): one set of regions kept as a
    red-black tree, as an ordered list and as a table of keys. */
module RegionIndex {
  import opened Arithmetic
  import opened RbZipper
  import opened RbTrees
  import Keys = KeysDb

  const GRANULE: nat := 65536          // 1 << CONFIG_VM_REGION_KEYWIDTH
  const USR_LIMIT: nat := 0x70000000   // CONFIG_USR_LIMIT
  const ADDRESSES: nat := 0x1_0000_0000

  datatype Region = Region(begin: nat, start: nat, limit: nat, end: nat)

  type Regions = map<nat, Region>

  /** `Clobbered` is no error code of the source: it stands for the tree link of another region being overwritten. */
  datatype Error = Ok | EEXIST | ENOMEM | EINVAL | ENOSYS | Clobbered

  predicate Granular(r: Region)
  {
    && r.begin % GRANULE == 0 && r.end % GRANULE == 0 && r.begin < r.end < Keys.KEYS_NR * GRANULE
    && r.begin <= r.start
  }

  /** The keys of a region: the first one, and how many. */
  function FirstKey(r: Region): nat { r.begin / GRANULE }

  function KeyCount(r: Region): nat
    requires r.begin <= r.end
  {
    (r.end - r.begin) / GRANULE
  }

  predicate Inside(r: Region, vaddr: nat) { r.begin <= vaddr < r.end }

  /** The granule of key k is in the region. */
  predicate KeyIn(r: Region, k: nat) { Inside(r, k * GRANULE) }

  ghost predicate Known(list: seq<nat>, reg: Regions)
  {
    forall i :: 0 <= i < |list| ==> list[i] != NIL && list[i] in reg && Granular(reg[list[i]])
  }

  /** The list is sorted and the regions are disjoint. */
  ghost predicate Spaced(list: seq<nat>, reg: Regions)
  {
    && Known(list, reg)
    && forall i, j :: 0 <= i < j < |list| ==> reg[list[i]].end <= reg[list[j]].begin
  }

  /** A bound key leads to a region whose granules contain it. */
  ghost predicate KeysOk(keys: Keys.Map, list: seq<nat>, reg: Regions)
  {
    forall k :: k in keys ==> keys[k] in list && keys[k] in reg && KeyIn(reg[keys[k]], k)
  }

  /** With one key of a region all of them are bound to it. */
  ghost predicate KeysWhole(keys: Keys.Map, reg: Regions)
  {
    forall k, j: nat :: k in keys && keys[k] in reg && KeyIn(reg[keys[k]], j) ==> j in keys && keys[j] == keys[k]
  }

  /** The linear search: the first region of the list that ends above vaddr. */
  ghost function FirstAbove(list: seq<nat>, reg: Regions, vaddr: nat): nat
    requires Known(list, reg)
  {
    if list == [] then NIL
    else if vaddr < reg[list[0]].end then list[0]
    else FirstAbove(list[1..], reg, vaddr)
  }

  lemma {:induction false} SkipBelow(a: seq<nat>, b: seq<nat>, reg: Regions, vaddr: nat)
    requires Known(a + b, reg) && Known(b, reg)
    requires forall x :: x in a ==> x in reg && reg[x].end <= vaddr
    ensures FirstAbove(a + b, reg, vaddr) == FirstAbove(b, reg, vaddr)
  {
    if a == [] {
      assert a + b == b;
    } else {
      assert (a + b)[1..] == a[1..] + b;
      assert (a + b)[0] == a[0];
      SkipBelow(a[1..], b, reg, vaddr);
    }
  }

  /** What the order says around one region. */
  lemma Around(a: seq<nat>, n: nat, b: seq<nat>, reg: Regions)
    requires Spaced(a + [n] + b, reg)
    ensures n in reg && Granular(reg[n])
    ensures forall x :: x in a ==> x in reg && reg[x].end <= reg[n].begin && x != n
    ensures forall x :: x in b ==> x in reg && reg[n].end <= reg[x].begin && x != n
  {
    var l := a + [n] + b;
    assert l[|a|] == n;
    forall x | x in a
      ensures x in reg && reg[x].end <= reg[n].begin && x != n
    {
      var i :| 0 <= i < |a| && a[i] == x;
      assert l[i] == x;
    }
    forall x | x in b
      ensures x in reg && reg[n].end <= reg[x].begin && x != n
    {
      var i :| 0 <= i < |b| && b[i] == x;
      assert l[|a| + 1 + i] == x;
    }
  }

  /** The search down the tree: everything before the focus ends at or below vaddr, everything after it
      begins above, and `best` is the first region after it. */
  ghost predicate Searching(reg: Regions, c: Ctx, vaddr: nat, best: nat)
  {
    && (forall x :: x in Before(c) ==> x in reg && reg[x].end <= vaddr)
    && (forall x :: x in After(c) ==> x in reg && vaddr < reg[x].begin)
    && best == if After(c) == [] then NIL else After(c)[0]
  }

  lemma {:induction false} GoLeft(reg: Regions, c: Ctx, t: Tree, vaddr: nat, best: nat)
    requires Searching(reg, c, vaddr, best) && t.T? && Spaced(Before(c) + Inorder(t) + After(c), reg)
    requires t.n in reg && vaddr < reg[t.n].begin
    ensures Searching(reg, InL(c, t.n, t.red, t.r), vaddr, t.n)
  {
    var a, b := Before(c) + Inorder(t.l), Inorder(t.r) + After(c);
    assert Before(c) + Inorder(t) + After(c) == a + [t.n] + b;
    Around(a, t.n, b, reg);
    assert After(InL(c, t.n, t.red, t.r)) == [t.n] + Inorder(t.r) + After(c);
  }

  lemma {:induction false} GoRight(reg: Regions, c: Ctx, t: Tree, vaddr: nat, best: nat)
    requires Searching(reg, c, vaddr, best) && t.T? && Spaced(Before(c) + Inorder(t) + After(c), reg)
    requires t.n in reg && reg[t.n].end <= vaddr
    ensures Searching(reg, InR(c, t.n, t.red, t.l), vaddr, best)
  {
    var a, b := Before(c) + Inorder(t.l), Inorder(t.r) + After(c);
    assert Before(c) + Inorder(t) + After(c) == a + [t.n] + b;
    Around(a, t.n, b, reg);
  }

  /** The search stops at a region that holds vaddr: it is the one the list scan finds. */
  lemma FoundInside(reg: Regions, c: Ctx, t: Tree, vaddr: nat)
    requires t.T? && Spaced(Before(c) + Inorder(t) + After(c), reg)
    requires t.n in reg && Inside(reg[t.n], vaddr)
    ensures FirstAbove(Before(c) + Inorder(t) + After(c), reg, vaddr) == t.n
  {
    var a, b := Before(c) + Inorder(t.l), Inorder(t.r) + After(c);
    var l := Before(c) + Inorder(t) + After(c);
    assert l == a + [t.n] + b;
    Around(a, t.n, b, reg);
    assert l == a + ([t.n] + b);
    assert forall i :: 0 <= i < |[t.n] + b| ==> ([t.n] + b)[i] == l[|a| + i];
    SkipBelow(a, [t.n] + b, reg, vaddr);
  }

  /** The search stops at an empty link. */
  lemma FoundGap(reg: Regions, c: Ctx, vaddr: nat, best: nat)
    requires Searching(reg, c, vaddr, best) && Spaced(Before(c) + After(c), reg)
    ensures FirstAbove(Before(c) + After(c), reg, vaddr) == best
    ensures forall x :: x in Before(c) + After(c) ==> !Inside(reg[x], vaddr)
  {
    var l := Before(c) + After(c);
    assert forall i :: 0 <= i < |After(c)| ==> After(c)[i] == l[|Before(c)| + i];
    SkipBelow(Before(c), After(c), reg, vaddr);
  }

  // ---------------------------------------------------------------- tree order and list order

  lemma {:induction false} InorderIds(t: Tree)
    ensures forall x :: x in Inorder(t) <==> x in Ids(t)
  {
    if t.T? {
      InorderIds(t.l);
      InorderIds(t.r);
    }
  }

  /** `list_add_pred(&next->vm_list, &node->vm_list)` */
  function InsertPred(list: seq<nat>, next: nat, node: nat): seq<nat>
  {
    if list == [] then [node]
    else if list[0] == next then [node] + list
    else [list[0]] + InsertPred(list[1..], next, node)
  }

  lemma {:induction false} InsertPredAt(a: seq<nat>, next: nat, b: seq<nat>, node: nat)
    requires next !in a
    ensures InsertPred(a + [next] + b, next, node) == a + [node] + ([next] + b)
  {
    var l := a + [next] + b;
    if a != [] {
      assert l[0] == a[0] && l[1..] == a[1..] + [next] + b;
      InsertPredAt(a[1..], next, b, node);
      assert [a[0]] + (a[1..] + [node] + ([next] + b)) == a + [node] + ([next] + b);
    }
  }

  /** `list_unlink` */
  function Unlink(list: seq<nat>, node: nat): seq<nat>
  {
    if list == [] then []
    else if list[0] == node then list[1..]
    else [list[0]] + Unlink(list[1..], node)
  }

  lemma {:induction false} UnlinkAt(a: seq<nat>, node: nat, b: seq<nat>)
    requires node !in a
    ensures Unlink(a + [node] + b, node) == a + b
  {
    var l := a + [node] + b;
    if a == [] {
      assert l[1..] == b;
    } else {
      assert l[0] == a[0] && l[1..] == a[1..] + [node] + b;
      UnlinkAt(a[1..], node, b);
    }
  }

  ghost predicate Apart(a: seq<nat>, b: seq<nat>, reg: Regions)
  {
    forall x, y :: x in a && y in b ==> x in reg && y in reg && reg[x].end <= reg[y].begin
  }

  lemma SpacedSplit(a: seq<nat>, b: seq<nat>, reg: Regions)
    ensures Spaced(a + b, reg) <==> Spaced(a, reg) && Spaced(b, reg) && Apart(a, b, reg)
  {
    hide Granular;
    var l := a + b;
    assert forall i :: 0 <= i < |a| ==> l[i] == a[i];
    assert forall i :: 0 <= i < |b| ==> l[|a| + i] == b[i];
    if Spaced(l, reg) {
      forall x, y | x in a && y in b
        ensures x in reg && y in reg && reg[x].end <= reg[y].begin
      {
        var i :| 0 <= i < |a| && a[i] == x;
        var j :| 0 <= j < |b| && b[j] == y;
        assert l[i] == x && l[|a| + j] == y;
      }
    }
  }

  lemma SpacedFrame(l: seq<nat>, reg: Regions, node: nat, r: Region)
    requires node !in l
    ensures Spaced(l, reg[node := r]) <==> Spaced(l, reg)
  {
    hide Granular;
    var reg' := reg[node := r];
    assert forall i :: 0 <= i < |l| ==> l[i] in l && (l[i] in reg' <==> l[i] in reg);
    assert forall i :: 0 <= i < |l| && l[i] in reg ==> reg'[l[i]] == reg[l[i]];
  }

  /** Inserting a region between two neighbours keeps the spacing iff it does not run into the next one. */
  lemma InsertSpaced(a: seq<nat>, b: seq<nat>, reg: Regions, node: nat, r: Region)
    requires Spaced(a + b, reg) && node !in a && node !in b && node != NIL
    requires forall x :: x in a ==> x in reg && reg[x].end <= r.begin
    requires forall x :: x in b ==> x in reg && r.begin < reg[x].begin
    ensures Spaced(a + [node] + b, reg[node := r]) <==> Granular(r) && (b == [] || r.end <= reg[b[0]].begin)
  {
    var reg' := reg[node := r];
    SpacedSplit(a, b, reg);
    SpacedFrame(a, reg, node, r);
    SpacedFrame(b, reg, node, r);
    assert Spaced([node], reg') <==> Granular(r) by {
      assert [node][0] == node;
    }
    SpacedSplit(a, [node], reg');
    SpacedSplit(a + [node], b, reg');
    if b != [] {
      assert b[0] in b;
      FirstLeast(b, reg);
    }
    hide Spaced, Granular;
    assert Apart(a, [node], reg');
    assert Apart(a + [node], b, reg') <==> (b == [] || r.end <= reg[b[0]].begin);
  }

  lemma FirstLeast(b: seq<nat>, reg: Regions)
    requires Spaced(b, reg) && b != []
    ensures forall y :: y in b ==> y in reg && reg[b[0]].begin <= reg[y].begin
  {
    forall y | y in b
      ensures y in reg && reg[b[0]].begin <= reg[y].begin
    {
      var j :| 0 <= j < |b| && b[j] == y;
      if j > 0 { assert reg[b[0]].end <= reg[b[j]].begin; }
    }
  }

  lemma RemoveSpaced(a: seq<nat>, node: nat, b: seq<nat>, reg: Regions)
    requires Spaced(a + [node] + b, reg)
    ensures Spaced(a + b, reg) && node !in a + b
  {
    var l := a + [node] + b;
    assert forall i :: 0 <= i < |a + b| ==> (a + b)[i] == l[if i < |a| then i else i + 1];
    Around(a, node, b, reg);
  }

  // ---------------------------------------------------------------- the address space

  class Vmm {
    const tree: RbTree            // regions_tree, linked through vm_node
    const db: Keys.Db             // regions_db
    var list: seq<nat>            // regions_root, linked through vm_list
    var reg: Regions              // the region records
    var lastMmap: nat             // last_mmap
    ghost var shape: Tree

    /** `vmm_init`: no region yet. */
    constructor (size: nat, grants: nat)
      ensures Valid() && list == [] && lastMmap == 0 && |tree.h| == size && fresh(tree) && fresh(db)
      ensures db.keys == map[] && db.budget == grants
    {
      tree := new RbTree(size);
      db := new Keys.Db(grants);
      list, reg, lastMmap, shape := [], map[], 0, Leaf;
    }

    ghost predicate Linked()
      reads this, tree
    {
      RbZipper.Holds(tree.h, tree.root, shape) && RedBlack(shape) && Inorder(shape) == list
    }

    ghost predicate Valid()
      reads this, tree, db
    {
      && Linked() && Spaced(list, reg) && db.Valid() && lastMmap % GRANULE == 0
      && KeysOk(db.keys, list, reg) && KeysWhole(db.keys, reg)
    }

    lemma Parts()
      requires Valid()
      ensures Linked() && Spaced(list, reg) && lastMmap % GRANULE == 0
    {
    }

    /** `vm_region_find_list` */
    method FindList(vaddr: nat) returns (r: nat)
      requires Known(list, reg)
      ensures r == FirstAbove(list, reg, vaddr)
    {
      var i := 0;
      while i < |list|
        invariant i <= |list| && Known(list[i..], reg)
        invariant FirstAbove(list[i..], reg, vaddr) == FirstAbove(list, reg, vaddr)
      {
        if vaddr < reg[list[i]].end {
          return list[i];
        }
        assert list[i..][1..] == list[i + 1..];
        i := i + 1;
      }
      return NIL;
    }

    /** `vm_region_find`: the search down the tree agrees with the scan of the list. */
    method Find(vaddr: nat) returns (r: nat)
      requires Linked() && Spaced(list, reg)
      ensures r == FirstAbove(list, reg, vaddr)
    {
      r := NIL;
      var node := tree.root;
      ghost var c, t := Top, shape;
      StartSearch(tree.h, tree.root, shape, reg, vaddr);
      hide At, Plug, Inorder, Searching, RedBlack, Granular, Spaced, FirstAbove, Known;
      while node != NIL
        invariant At(tree.h, tree.root, c, t) && Plug(c, t) == shape && node == Ptr(t)
        invariant Searching(reg, c, vaddr, r)
        decreases t
      {
        FocusList(c, t);
        View(tree.h, tree.root, c, t);
        InTheList(c, t, reg);
        if vaddr < reg[node].end {
          ghost var best := r;
          r := node;
          if vaddr >= reg[node].begin {
            FoundInside(reg, c, t, vaddr);
            return;
          }
          GoLeft(reg, c, t, vaddr, best);
          DownL(c, t);
          node := tree.h[node].left;
          Refocus(tree.h, tree.root, c, t, InL(c, t.n, t.red, t.r), t.l);
          c, t := InL(c, t.n, t.red, t.r), t.l;
        } else {
          GoRight(reg, c, t, vaddr, r);
          DownR(c, t);
          node := tree.h[node].right;
          Refocus(tree.h, tree.root, c, t, InR(c, t.n, t.red, t.l), t.r);
          c, t := InR(c, t.n, t.red, t.l), t.r;
        }
      }
      EmptyFocus(tree.h, tree.root, c, t);
      FocusList(c, t);
      FoundGap(reg, c, vaddr, r);
    }

    /** `vm_region_find_prepare`: the same search, with the empty link where a region that begins at addr belongs. */
    method FindPrepare(addr: nat) returns (vma: nat, parent: nat, left: bool, ghost c: Ctx)
      requires Linked() && Spaced(list, reg)
      ensures vma == FirstAbove(list, reg, addr) && (vma == NIL || vma in reg)
      ensures (vma == NIL || addr < reg[vma].begin) ==>
        shape == Plug(c, Leaf) && parent == ParOf(c) && (left <==> c.InL?) && Searching(reg, c, addr, vma)
    {
      vma, parent, left := NIL, NIL, false;
      var node := tree.root;
      c := Top;
      ghost var t := shape;
      StartSearch(tree.h, tree.root, shape, reg, addr);
      hide At, Plug, Inorder, Searching, RedBlack, Granular, Spaced, FirstAbove, Known;
      while node != NIL
        invariant At(tree.h, tree.root, c, t) && Plug(c, t) == shape && node == Ptr(t)
        invariant Searching(reg, c, addr, vma) && parent == ParOf(c) && (left <==> c.InL?)
        decreases t
      {
        FocusList(c, t);
        View(tree.h, tree.root, c, t);
        InTheList(c, t, reg);
        parent := node;
        if reg[node].end > addr {
          ghost var best := vma;
          vma := node;
          if reg[node].begin <= addr {
            FoundInside(reg, c, t, addr);
            return;
          }
          GoLeft(reg, c, t, addr, best);
          DownL(c, t);
          node, left := tree.h[node].left, true;
          Refocus(tree.h, tree.root, c, t, InL(c, t.n, t.red, t.r), t.l);
          c, t := InL(c, t.n, t.red, t.r), t.l;
        } else {
          GoRight(reg, c, t, addr, vma);
          DownR(c, t);
          node, left := tree.h[node].right, false;
          Refocus(tree.h, tree.root, c, t, InR(c, t.n, t.red, t.l), t.r);
          c, t := InR(c, t.n, t.red, t.l), t.r;
        }
      }
      EmptyFocus(tree.h, tree.root, c, t);
      FocusList(c, t);
      FoundGap(reg, c, addr, vma);
      BestKnown(reg, c, addr, vma);
    }

    /** Adds a region to the tree and to the list at the place the search found. Order stays the same in
        both, and the regions stay disjoint iff the new one is not empty and does not run into the next. */
    method LinkRegion(node: nat, r: Region, next: nat, parent: nat, left: bool, ghost c: Ctx)
      requires Linked() && Spaced(list, reg) && node !in list && node != NIL && node < |tree.h|
      requires shape == Plug(c, Leaf) && parent == ParOf(c) && (left <==> c.InL?) && Searching(reg, c, r.begin, next)
      modifies this, tree
      ensures Linked() && reg == old(reg)[node := r] && |tree.h| == old(|tree.h|) && lastMmap == old(lastMmap)
      ensures forall x :: x in list <==> x in old(list) || x == node
      ensures Spaced(list, reg) <==> Granular(r) && (next == NIL || (next in old(reg) && r.end <= old(reg)[next].begin))
    {
      LinkFacts(shape, list, reg, c, node, r, next);
      hide Plug, Inorder, RedBlack, Ids, Searching, Before, After, Spaced, Granular, InsertPred, Placed, RbZipper.Holds;
      shape := tree.Insert(node, parent, left, c);
      list := Placed(list, next, node);
      reg := reg[node := r];
    }

    /** `vm_region_attach` at a fixed address. The source does not test whether the region runs into the next one or
        wraps around, and the index stays valid exactly when it does neither. */
    method AttachFixed(node: nat, r: Region) returns (err: Error)
      requires Valid() && node !in list && node != NIL && node < |tree.h| && r.begin % GRANULE == 0
      modifies this, tree
      ensures err == EEXIST <==> exists x :: x in old(list) && Inside(old(reg)[x], r.begin)
      ensures (err == EEXIST || err == Ok) && db.keys == old(db.keys) && |tree.h| == old(|tree.h|)
      ensures err == EEXIST ==> Valid() && list == old(list) && reg == old(reg) && lastMmap == old(lastMmap)
      ensures err == Ok ==> Linked() && reg == old(reg)[node := r] && lastMmap == r.begin
      ensures err == Ok ==> forall x :: x in list <==> x in old(list) || x == node
      ensures err == Ok ==> (Valid() <==>
        Granular(r) && forall x :: x in old(list) && r.begin < old(reg)[x].end ==> r.end <= old(reg)[x].begin)
    {
      hide Granular, Spaced, Searching, RedBlack, Inorder, Plug, RbZipper.Holds, KeysOk, KeysWhole, FirstAbove;
      var next, parent, left;
      ghost var c;
      next, parent, left, c := FindPrepare(r.begin);
      FirstAboveIs(list, reg, r.begin);
      if next != NIL && r.begin >= reg[next].begin {
        return EEXIST;
      }
      NextBounds(list, reg, r.begin, r.end);
      LinkRegion(node, r, next, parent, left, c);
      KeysMore(db.keys, old(list), list, old(reg), node, r);
      lastMmap := r.begin;
      return Ok;
    }

    /** `vm_region_solve` and the rest of `vm_region_attach`: the lowest address from `last_mmap` up with room
        for the region and a gap after it; none exists exactly when the call fails. That is so for sizes up to the
        user space. The source takes any size: a placed region lies in the user space, and the index stays valid,
        exactly when the size is at most that and not zero, to which a length near 2^32 is rounded. */
    method AttachAnywhere(node: nat, size: nat, length: nat) returns (err: Error)
      requires Valid() && node !in list && node != NIL && node < |tree.h|
      requires size < ADDRESSES && size % GRANULE == 0
      modifies this, tree
      ensures err == Ok || err == ENOMEM || (err == Clobbered && size > USR_LIMIT)
      ensures db.keys == old(db.keys)
      ensures err == ENOMEM ==> Valid() && list == old(list) && reg == old(reg) && lastMmap == old(lastMmap)
      ensures err == Ok ==> Linked() && old(lastMmap) <= lastMmap && UnderLimit(lastMmap, size)
      ensures err == Ok ==> reg == old(reg)[node := Placement(lastMmap, size, length)]
      ensures err == Ok ==> forall x :: x in list <==> x in old(list) || x == node
      ensures err == Ok ==> (Valid() && lastMmap + size <= USR_LIMIT <==> 0 < size <= USR_LIMIT)
      ensures 0 < size <= USR_LIMIT ==>
        (err == ENOMEM <==> forall a :: old(lastMmap) <= a <= USR_LIMIT - size ==> !Fits(old(list), old(reg), a, size))
      ensures 0 < size <= USR_LIMIT && err == Ok ==> Fits(old(list), old(reg), lastMmap, size)
      ensures 0 < size <= USR_LIMIT && err == Ok ==>
        forall a :: old(lastMmap) <= a < lastMmap ==> !Fits(old(list), old(reg), a, size)
      ensures FirstAbove(old(list), old(reg), old(lastMmap)) == NIL && UnderLimit(old(lastMmap), size) ==>
        err == Ok && lastMmap == old(lastMmap)
    {
      hide *;
      Parts();
      var limit := (USR_LIMIT - size) % ADDRESSES;
      var start, next, parent, left;
      ghost var c;
      start, next, parent, left, c := Solve(size, limit);
      SolveFacts(list, reg, lastMmap, start, size, next);
      if start > limit {
        return ENOMEM;
      }
      if next != NIL && start >= reg[next].begin {
        return Clobbered;
      }
      Place(node, start, size, length, next, parent, left, c);
      return Ok;
    }

    /** The search loop of `vm_region_solve`. */
    method Solve(size: nat, limit: nat) returns (start: nat, next: nat, parent: nat, left: bool, ghost c: Ctx)
      requires Linked() && Spaced(list, reg) && lastMmap % GRANULE == 0
      requires size < ADDRESSES && limit == (USR_LIMIT - size) % ADDRESSES
      ensures lastMmap <= start && start % GRANULE == 0 && Known(list, reg)
      ensures start <= limit ==>
        next == FirstAbove(list, reg, start) && (next == NIL || (next in reg &&
          (start + size) % ADDRESSES < reg[next].begin))
      ensures start <= limit && (next == NIL || start < reg[next].begin) ==>
        shape == Plug(c, Leaf) && parent == ParOf(c) && (left <==> c.InL?) && Searching(reg, c, start, next)
      ensures 0 < size <= USR_LIMIT ==> forall a :: lastMmap <= a < start ==> !Fits(list, reg, a, size)
      ensures start != lastMmap ==> FirstAbove(list, reg, lastMmap) != NIL
    {
      assert Known(list, reg);
      hide Granular, Spaced, Known, Searching, RedBlack, Inorder, Plug, RbZipper.Holds, FirstAbove, Fits;
      start := lastMmap;
      next, parent, left, c := NIL, NIL, false, Top;
      while start <= limit
        invariant lastMmap <= start && start % GRANULE == 0
        invariant 0 < size <= USR_LIMIT ==> forall a :: lastMmap <= a < start ==> !Fits(list, reg, a, size)
        invariant start != lastMmap ==> FirstAbove(list, reg, lastMmap) != NIL
        decreases limit - start
      {
        next, parent, left, c := FindPrepare(start);
        FirstAboveIs(list, reg, start);
        if next == NIL || (start + size) % ADDRESSES < reg[next].begin {
          break;
        }
        if 0 < size <= USR_LIMIT {
          Blocked(list, reg, start, size);
        }
        InGranular(list, reg, next);
        GranularParts(reg[next]);
        start := reg[next].end;
      }
    }

    /** The end of `vm_region_solve` and of `vm_region_attach`. */
    method Place(node: nat, start: nat, size: nat, length: nat, next: nat, parent: nat, left: bool, ghost c: Ctx)
      requires Valid() && node !in list && node != NIL && node < |tree.h|
      requires size < ADDRESSES && size % GRANULE == 0 && start % GRANULE == 0 && UnderLimit(start, size)
      requires next == NIL || (next in reg && start < reg[next].begin && (start + size) % ADDRESSES < reg[next].begin)
      requires shape == Plug(c, Leaf) && parent == ParOf(c) && (left <==> c.InL?) && Searching(reg, c, start, next)
      modifies this, tree
      ensures Linked() && lastMmap == start && reg == old(reg)[node := Placement(start, size, length)]
      ensures forall x :: x in list <==> x in old(list) || x == node
      ensures Valid() && lastMmap + size <= USR_LIMIT <==> 0 < size <= USR_LIMIT
    {
      hide Granular, Spaced, Searching, RedBlack, Inorder, Plug, RbZipper.Holds, KeysOk, KeysWhole, FirstAbove, Fits;
      var r := Placement(start, size, length);
      if 0 < size <= USR_LIMIT {
        SumGranular(start, size, length);
      } else if size == 0 {
        EmptyRegion(r);
      }
      LinkRegion(node, r, next, parent, left, c);
      KeysMore(db.keys, old(list), list, old(reg), node, r);
      lastMmap := start;
    }

    /** The index part of `vm_region_detach`. A lazy detach leaves the keys bound. */
    method Detach(node: nat, lazy: bool)
      requires Valid() && node in list
      modifies this, tree, db
      ensures Linked() && Spaced(list, reg) && db.Valid() && node !in list && |tree.h| == old(|tree.h|)
      ensures forall x :: x in list <==> x in old(list) && x != node
      ensures list == Unlink(old(list), node) && reg == old(reg) - {node}
      ensures lastMmap == if old(reg)[node].end < old(lastMmap) then old(reg)[node].begin else old(lastMmap)
      ensures old(reg)[node].begin < old(reg)[node].end && db.budget == old(db.budget)
      ensures var r := old(reg)[node];
        db.keys == if lazy then old(db.keys) else Keys.Outside(old(db.keys), FirstKey(r), KeyCount(r))
      ensures Valid() <==> !lazy || forall k :: k in old(db.keys) ==> old(db.keys)[k] != node
    {
      hide Spaced, RedBlack, Inorder, RbZipper.Holds, KeysOk, KeysWhole, Ids, Granular, Inside;
      InSpaced(list, reg, node);
      var r := reg[node];
      UnlinkRegion(node);
      if r.end < lastMmap {
        GranularParts(r);
        lastMmap := r.begin;
      }
      if !lazy {
        KeyRange(r);
        db.Unbind(FirstKey(r), KeyCount(r));
        KeysLess(old(db.keys), db.keys, old(list), list, old(reg), node);
      } else {
        KeysStay(db.keys, old(list), list, old(reg), node);
      }
    }

    /** The region leaves list and tree. */
    method UnlinkRegion(node: nat)
      requires Linked() && Spaced(list, reg) && node in list
      modifies this`list, this`reg, this`shape, tree
      ensures Linked() && Spaced(list, reg) && node !in list && |tree.h| == old(|tree.h|)
      ensures forall x :: x in list <==> x in old(list) && x != node
      ensures list == Unlink(old(list), node) && reg == old(reg) - {node}
    {
      InorderIds(shape);
      hide Spaced, RedBlack, Inorder, RbZipper.Holds, Ids;
      ghost var pre, post;
      shape, pre, post := tree.Erase(node, shape);
      DetachList(list, reg, node, pre, post);
      list := Unlink(list, node);
      reg := reg - {node};
    }

    /** The records for the keys of a region cannot be had. */
    ghost predicate Starved(r: Region)
      requires db.Valid() && Granular(r)
      reads this, db
    {
      KeyRange(r);
      |Keys.Lacking(db.root, FirstKey(r), KeyCount(r))| > db.budget
    }

    /** No key of the region is bound. */
    ghost predicate Unbound(r: Region)
      reads this, db
    {
      forall k :: k in db.keys ==> !KeyIn(r, k)
    }

    /** `vmm_keysdb_update`, and the same lines of `vmm_mmap`: all the keys of the region or, without memory for their
        records or with a key that is bound, none. */
    method BindRegion(node: nat) returns (err: Keys.Error)
      requires Valid() && node in list
      modifies db
      ensures Valid() && Granular(reg[node])
      ensures err == Keys.Ok <==> old(Unbound(reg[node])) && !old(Starved(reg[node]))
      ensures var r := reg[node];
        db.keys == if err != Keys.Ok then old(db.keys)
                   else Keys.Ranged(old(db.keys), FirstKey(r), KeyCount(r), node)
    {
      hide Spaced, RedBlack, Inorder, RbZipper.Holds, KeysOk, KeysWhole, Granular, Inside, Keys.Ranged, Keys.Lacking;
      InSpaced(list, reg, node);
      var r := reg[node];
      KeyRange(r);
      err := db.Bind(FirstKey(r), KeyCount(r), node);
      if err == Keys.Ok { KeysBound(old(db.keys), list, reg, node); }
    }

    /** The lookup of `vmm_fault_handler`: key table first, tree on a miss, then the bounds test and the refill.
        Whichever way the region is found, it is the one the list scan finds. After a miss that finds a region, all its
        keys are bound to it, unless there is no memory for their records; otherwise no key changes. */
    method FaultLookup(vaddr: nat) returns (r: nat)
      requires Valid() && vaddr < ADDRESSES
      modifies db
      ensures Valid()
      ensures var n := FirstAbove(list, reg, vaddr);
        r == if n == NIL || n !in reg || vaddr > reg[n].limit || vaddr < reg[n].start then NIL else n
      ensures r != NIL ==> r in list && Granular(reg[r])
      ensures db.keys ==
        if r == NIL || vaddr / GRANULE in old(db.keys) || old(Starved(reg[r])) then old(db.keys)
        else Keys.Ranged(old(db.keys), FirstKey(reg[r]), KeyCount(reg[r]), r)
    {
      hide Spaced, RedBlack, Inorder, RbZipper.Holds, KeysOk, KeysWhole, Granular, FirstAbove;
      FirstAboveIs(list, reg, vaddr);
      var isMiss := false;
      r := db.Lookup(vaddr / GRANULE);
      if r == NIL {
        r := Find(vaddr);
        isMiss := true;
      } else {
        KeyHit(db.keys, list, reg, vaddr);
      }
      if r == NIL || vaddr > reg[r].limit || vaddr < reg[r].start {
        return NIL;
      }
      InSpaced(list, reg, r);
      if isMiss {
        MissUnbound(db.keys, list, reg, r, vaddr);
        var err := BindRegion(r);
      }
    }

    /** `vmm_munmap` and `vmm_do_munmap`: EINVAL exactly when the key of the address is unbound, even if a region is
        there, or the address is outside the region it is bound to. Only whole regions go; parts are not supported. */
    method Munmap(vaddr: nat, length: nat) returns (err: Error)
      requires Valid() && vaddr < ADDRESSES
      modifies this, tree, db
      ensures Valid()
      ensures err == EINVAL <==>
        vaddr / GRANULE !in old(db.keys) || !InBounds(old(reg), old(db.keys)[vaddr / GRANULE], vaddr)
      ensures err in {Ok, EINVAL, ENOSYS} && |tree.h| == old(|tree.h|) && db.budget == old(db.budget)
      ensures err == EINVAL || err == ENOSYS ==>
        list == old(list) && reg == old(reg) && db.keys == old(db.keys) && lastMmap == old(lastMmap)
      ensures err != EINVAL ==> var n := old(db.keys)[vaddr / GRANULE]; var r := old(reg)[n];
        if r.start == vaddr && r.limit == (vaddr + length) % ADDRESSES
        then
          && err == Ok && list == Unlink(old(list), n) && reg == old(reg) - {n}
          && (forall x :: x in list <==> x in old(list) && x != n)
          && r.begin < r.end && db.keys == Keys.Outside(old(db.keys), FirstKey(r), KeyCount(r))
          && lastMmap == if r.end < old(lastMmap) then r.begin else old(lastMmap)
        else
          && list == old(list) && reg == old(reg) && db.keys == old(db.keys) && lastMmap == old(lastMmap)
          && (err == ENOSYS <==> (vaddr + length) % ADDRESSES < r.limit)
    {
      hide Spaced, RedBlack, Inorder, RbZipper.Holds, Granular, FirstAbove;
      var n := db.Lookup(vaddr / GRANULE);
      if n == NIL || vaddr > reg[n].limit || vaddr < reg[n].start {
        return EINVAL;
      }
      var addrLimit := (vaddr + length) % ADDRESSES;
      if reg[n].start == vaddr && reg[n].limit == addrLimit {
        Detach(n, false);
        return Ok;
      }
      if vaddr >= reg[n].start && addrLimit < reg[n].limit {
        return ENOSYS;
      }
      return Ok;
    }
  }

  /** The bounds test on a region. */
  predicate InBounds(reg: Regions, n: nat, vaddr: nat)
  {
    n in reg && reg[n].start <= vaddr <= reg[n].limit
  }

  /** The region `vm_region_solve` makes of an address, in 32 bits. */
  function Placement(start: nat, size: nat, length: nat): (r: Region)
    ensures r.begin == r.start == start && (start + size < ADDRESSES ==> r.end == start + size)
    ensures start + length < ADDRESSES ==> r.limit == start + length
  {
    Region(start, start, (start + length) % ADDRESSES, (start + size) % ADDRESSES)
  }

  /** A request of 2 gigabytes is placed at address 0, past the end of the user space. */
  method OversizeAccepted() returns (vmm: Vmm, err: Error)
    ensures fresh(vmm) && err == Ok && 1 in vmm.reg && vmm.reg[1].begin == 0
    ensures vmm.reg[1].end == 0x8000_0000 > USR_LIMIT
  {
    vmm := new Vmm(2, 0);
    err := vmm.AttachAnywhere(1, 0x8000_0000, 0x8000_0000);
  }

  /** A fixed region over the start of another one is taken, and the index is no longer valid. */
  method FixedOverlap() returns (vmm: Vmm, first: Error, second: Error)
    ensures fresh(vmm) && first == Ok && second == Ok && !vmm.Valid()
  {
    vmm := new Vmm(3, 0);
    first := vmm.AttachFixed(1, Region(0x20000, 0x20000, 0x30000, 0x30000));
    assert vmm.list != [] && 1 in vmm.list;
    second := vmm.AttachFixed(2, Region(0x10000, 0x10000, 0x30000, 0x30000));
  }

  /** A region whose keys are not bound, as after a fork, cannot be unmapped. */
  method UnboundRefused() returns (vmm: Vmm, err: Error)
    ensures fresh(vmm) && vmm.Valid() && 1 in vmm.list && vmm.reg[1].start == 0x20000 && err == EINVAL
  {
    vmm := new Vmm(2, 0);
    var e := vmm.AttachFixed(1, Region(0x20000, 0x20000, 0x30000, 0x30000));
    err := vmm.Munmap(0x20000, 0x10000);
  }

  lemma ClearStart(list: seq<nat>, reg: Regions, r: Region)
    requires Spaced(list, reg) && Granular(r) && Clear(list, reg, r)
    ensures forall x :: x in list ==> x in reg && !Inside(reg[x], r.begin)
  {
    forall x | x in list
      ensures x in reg && !Inside(reg[x], r.begin)
    {
      InSpaced(list, reg, x);
    }
  }

  lemma ClearKeys(keys: Keys.Map, list: seq<nat>, reg: Regions, r: Region)
    requires KeysOk(keys, list, reg) && Clear(list, reg, r)
    ensures forall k :: k in keys ==> !KeyIn(r, k)
  {
    forall k | k in keys
      ensures !KeyIn(r, k)
    {
      assert keys[k] in list && KeyIn(reg[keys[k]], k);
    }
  }

  lemma FoundThere(list: seq<nat>, reg: Regions, node: nat, vaddr: nat)
    requires Spaced(list, reg) && node in list && node in reg && Inside(reg[node], vaddr)
    ensures FirstAbove(list, reg, vaddr) == node
  {
    FirstAboveIs(list, reg, vaddr);
  }

  /** Binding the keys of a region that has none bound, and unbinding them again. */
  lemma BindUnbind(keys: Keys.Map, r: Region, node: nat)
    requires Granular(r) && forall k :: k in keys ==> !KeyIn(r, k)
    ensures Keys.Outside(Keys.Ranged(keys, FirstKey(r), KeyCount(r), node), FirstKey(r), KeyCount(r)) == keys
  {
    RangedKeys(keys, r, node);
    var keys' := Keys.Ranged(keys, FirstKey(r), KeyCount(r), node);
    OutsideKeys(keys', Keys.Outside(keys', FirstKey(r), KeyCount(r)), r);
    hide Granular, KeyIn, Keys.Outside, Keys.Ranged;
  }

  /** The region touches no other. */
  ghost predicate Clear(list: seq<nat>, reg: Regions, r: Region)
  {
    forall x :: x in list && x in reg && r.begin < reg[x].end ==> r.end <= reg[x].begin
  }

  /** A region attached, touched and unmapped: a fault anywhere in it binds its keys, so the whole region can be
      unmapped, and everything is as it was; without memory for the records it cannot. */
  method AttachTouchUnmap(vmm: Vmm, node: nat, r: Region, vaddr: nat, length: nat)
    returns (attached: Error, found: nat, err: Error)
    requires vmm.Valid() && node !in vmm.list && node != NIL && node < |vmm.tree.h|
    requires Granular(r) && Clear(vmm.list, vmm.reg, r)
    requires r.start <= vaddr <= r.limit == r.start + length < ADDRESSES && vaddr < r.end
    modifies vmm, vmm.tree, vmm.db
    ensures vmm.Valid() && attached == Ok && found == node
    ensures err == if old(vmm.Starved(r)) then EINVAL else Ok
    ensures err == Ok ==> vmm.db.keys == old(vmm.db.keys) && vmm.reg == old(vmm.reg) - {node}
    ensures forall x :: x in vmm.list <==> x in old(vmm.list) || (x == node && err == EINVAL)
  {
    ClearStart(vmm.list, vmm.reg, r);
    ClearKeys(vmm.db.keys, vmm.list, vmm.reg, r);
    hide RedBlack, Inorder, RbZipper.Holds, Keys.Holds, Spaced, Granular, KeysOk, KeysWhole, KeyIn, Keys.Lacking;
    attached := vmm.AttachFixed(node, r);
    found, err := TouchUnmap(vmm, node, vaddr, length);
  }

  /** What is known before the fault. */
  lemma ReadyToTouch(vmm: Vmm, node: nat, vaddr: nat)
    requires vmm.Valid() && node in vmm.list && node in vmm.reg && vmm.Unbound(vmm.reg[node]) && Granular(vmm.reg[node])
    requires var r := vmm.reg[node]; r.start <= vaddr <= r.limit && vaddr < r.end
    ensures FirstAbove(vmm.list, vmm.reg, vaddr) == node && node != NIL && InBounds(vmm.reg, node, vmm.reg[node].start)
    ensures var r, keys := vmm.reg[node], vmm.db.keys;
      var bound := Keys.Ranged(keys, FirstKey(r), KeyCount(r), node);
      && vaddr / GRANULE !in keys && r.start / GRANULE !in keys && r.start / GRANULE in bound
      && bound[r.start / GRANULE] == node && Keys.Outside(bound, FirstKey(r), KeyCount(r)) == keys
  {
    var r, keys := vmm.reg[node], vmm.db.keys;
    FoundThere(vmm.list, vmm.reg, node, vaddr);
    InSpaced(vmm.list, vmm.reg, node);
    GranuleInside(r, vaddr);
    GranuleInside(r, r.start);
    BindUnbind(keys, r, node);
    RangedKeys(keys, r, node);
    hide RedBlack, Inorder, RbZipper.Holds, Keys.Holds, Keys.Ranged, Keys.Outside, KeyIn;
    hide Spaced, FirstAbove, KeysOk, KeysWhole;
  }

  /** The same of any region that has no key bound. */
  method TouchUnmap(vmm: Vmm, node: nat, vaddr: nat, length: nat) returns (found: nat, err: Error)
    requires vmm.Valid() && node in vmm.list && node in vmm.reg && vmm.Unbound(vmm.reg[node]) && Granular(vmm.reg[node])
    requires var r := vmm.reg[node]; r.start <= vaddr <= r.limit == r.start + length < ADDRESSES && vaddr < r.end
    modifies vmm, vmm.tree, vmm.db
    ensures vmm.Valid() && found == node
    ensures err == if old(vmm.Starved(vmm.reg[node])) then EINVAL else Ok
    ensures vmm.db.keys == old(vmm.db.keys)
    ensures vmm.reg == if err == Ok then old(vmm.reg) - {node} else old(vmm.reg)
    ensures forall x :: x in vmm.list <==> x in old(vmm.list) && (x != node || err == EINVAL)
  {
    var r := vmm.reg[node];
    ghost var keys := vmm.db.keys;
    ReadyToTouch(vmm, node, vaddr);
    hide *;
    found := vmm.FaultLookup(vaddr);
    err := vmm.Munmap(r.start, length);
  }

  /** Room for a region of that size at address a, with a gap before the next region. */
  ghost predicate Fits(list: seq<nat>, reg: Regions, a: nat, size: nat)
    requires Known(list, reg)
  {
    var n := FirstAbove(list, reg, a);
    n == NIL || (n in reg && a + size < reg[n].begin)
  }

  /** The test of `vm_region_solve` on a candidate address, in 32 bits. */
  predicate UnderLimit(start: nat, size: nat)
  {
    start <= (USR_LIMIT - size) % ADDRESSES
  }

  /** That test keeps regions below the user limit exactly for sizes up to the limit; for larger sizes the
      difference wraps around, and address 0 passes. */
  lemma LimitGuard(size: nat)
    requires size < ADDRESSES
    ensures (forall start: nat :: UnderLimit(start, size) ==> start + size <= USR_LIMIT) <==> size <= USR_LIMIT
  {
    assert UnderLimit(0, size);
  }

  lemma GapFits(list: seq<nat>, reg: Regions, a: nat, size: nat)
    requires Known(list, reg)
    requires var n := FirstAbove(list, reg, a); n == NIL || (n in reg && a + size < reg[n].begin)
    ensures Fits(list, reg, a, size)
  {
  }

  /** No address below the end of a region that is in the way fits either. */
  lemma Blocked(list: seq<nat>, reg: Regions, start: nat, size: nat)
    requires Spaced(list, reg)
    requires var n := FirstAbove(list, reg, start); n != NIL && n in reg && reg[n].begin <= start + size
    ensures var n := FirstAbove(list, reg, start);
      && start < reg[n].end && reg[n].end % GRANULE == 0
      && forall a :: start <= a < reg[n].end ==> !Fits(list, reg, a, size)
  {
    FirstAboveIs(list, reg, start);
    var n := FirstAbove(list, reg, start);
    InGranular(list, reg, n);
    forall a | start <= a < reg[n].end
      ensures !Fits(list, reg, a, size)
    {
      StillFirst(list, reg, start, a);
    }
  }

  lemma {:induction false} StillFirst(list: seq<nat>, reg: Regions, v: nat, a: nat)
    requires Known(list, reg) && v <= a
    requires var n := FirstAbove(list, reg, v); n != NIL && n in reg && a < reg[n].end
    ensures FirstAbove(list, reg, a) == FirstAbove(list, reg, v)
  {
    if list != [] && reg[list[0]].end <= v { StillFirst(list[1..], reg, v, a); }
  }

  lemma SumGranular(start: nat, size: nat, length: nat)
    requires start % GRANULE == 0 && size % GRANULE == 0 && size > 0 && start + size <= USR_LIMIT
    ensures Granular(Placement(start, size, length)) && (start + size) % ADDRESSES == start + size
  {
  }

  /** What the search has found, in terms of gaps and limits. */
  lemma SolveFacts(list: seq<nat>, reg: Regions, from: nat, start: nat, size: nat, next: nat)
    requires Known(list, reg) && size < ADDRESSES
    requires start <= (USR_LIMIT - size) % ADDRESSES ==>
      next == FirstAbove(list, reg, start) && (next == NIL || (next in reg &&
        (start + size) % ADDRESSES < reg[next].begin))
    ensures UnderLimit(start, size) <==> start <= (USR_LIMIT - size) % ADDRESSES
    ensures 0 < size <= USR_LIMIT ==> (UnderLimit(start, size) <==> start <= USR_LIMIT - size)
    ensures size <= USR_LIMIT && UnderLimit(start, size) ==> (start + size) % ADDRESSES == start + size
    ensures 0 < size <= USR_LIMIT && UnderLimit(start, size) ==> Fits(list, reg, start, size)
  {
    hide Known, FirstAbove;
    if 0 < size <= USR_LIMIT && UnderLimit(start, size) {
      assert (start + size) % ADDRESSES == start + size;
      GapFits(list, reg, start, size);
    }
  }

  lemma EmptyRegion(r: Region)
    requires r.begin == r.end
    ensures !Granular(r)
  {
  }

  /** What `vm_region_init` makes of a length: it is rounded to zero exactly when it is zero or within a granule of
      the end of the address space. */
  lemma RoundedLength(length: nat)
    requires length < ADDRESSES
    ensures RoundUp(length, GRANULE) % ADDRESSES == 0 <==> length == 0 || length > ADDRESSES - GRANULE
  {
  }

  lemma DetachList(list: seq<nat>, reg: Regions, node: nat, pre: seq<nat>, post: seq<nat>)
    requires Spaced(list, reg) && list == pre + [node] + post
    ensures Unlink(list, node) == pre + post && Spaced(pre + post, reg - {node})
    ensures forall x :: x in pre + post <==> x in list && x != node
  {
    Around(pre, node, post, reg);
    UnlinkAt(pre, node, post);
    RemoveSpaced(pre, node, post, reg);
    assert forall i :: 0 <= i < |pre + post| ==> (pre + post)[i] in pre + post && (pre + post)[i] != node;
  }

  // ---------------------------------------------------------------- keys

  /** The granules of a region are a range of keys. */
  lemma KeyRange(r: Region)
    requires Granular(r)
    ensures r.begin < r.end && FirstKey(r) + KeyCount(r) <= Keys.KEYS_NR
    ensures forall k: nat :: KeyIn(r, k) <==>
      FirstKey(r) <= k < FirstKey(r) + KeyCount(r)
  {
  }

  /** No key is in two regions. */
  lemma OneKey(list: seq<nat>, reg: Regions, x: nat, y: nat, k: nat)
    requires Spaced(list, reg) && x in list && y in list && x in reg && y in reg && KeyIn(reg[x], k) && KeyIn(reg[y], k)
    ensures x == y
  {
    FirstAboveIs(list, reg, k * GRANULE);
  }

  lemma KeysLess(keys: Keys.Map, keys': Keys.Map, list: seq<nat>, list': seq<nat>, reg: Regions, node: nat)
    requires KeysOk(keys, list, reg) && KeysWhole(keys, reg) && Spaced(list, reg) && node in list
    requires node in reg && Granular(reg[node])
    requires forall x :: x in list' <==> x in list && x != node
    requires var r := reg[node]; keys' == Keys.Outside(keys, FirstKey(r), KeyCount(r))
    ensures KeysOk(keys', list', reg - {node}) && KeysWhole(keys', reg - {node})
  {
    OutsideKeys(keys, keys', reg[node]);
    hide *;
    FewerKeys(keys, keys', list, list', reg, node);
  }

  lemma FewerKeys(keys: Keys.Map, keys': Keys.Map, list: seq<nat>, list': seq<nat>, reg: Regions, node: nat)
    requires KeysOk(keys, list, reg) && KeysWhole(keys, reg) && Spaced(list, reg) && node in list && node in reg
    requires forall x :: x in list' <==> x in list && x != node
    requires forall k: nat :: k in keys' <==> k in keys && !KeyIn(reg[node], k)
    requires forall k :: k in keys' ==> keys'[k] == keys[k]
    ensures KeysOk(keys', list', reg - {node}) && KeysWhole(keys', reg - {node})
  {
    hide Spaced, KeyIn;
    forall k, j: nat | k in keys' && keys'[k] in reg - {node} && KeyIn(reg[keys'[k]], j)
      ensures j in keys' && keys'[j] == keys'[k]
    {
      if KeyIn(reg[node], j) { OneKey(list, reg, keys[k], node, j); }
    }
  }

  lemma OutsideKeys(keys: Keys.Map, keys': Keys.Map, r: Region)
    requires Granular(r) && keys' == Keys.Outside(keys, FirstKey(r), KeyCount(r))
    ensures forall k: nat :: k in keys' <==> k in keys && !KeyIn(r, k)
    ensures forall k :: k in keys' ==> keys'[k] == keys[k]
  {
    KeyRange(r);
    hide Granular, KeyIn, FirstKey, KeyCount;
  }

  lemma KeysStay(keys: Keys.Map, list: seq<nat>, list': seq<nat>, reg: Regions, node: nat)
    requires KeysOk(keys, list, reg) && forall x :: x in list' <==> x in list && x != node
    ensures KeysOk(keys, list', reg - {node}) <==> forall k :: k in keys ==> keys[k] != node
    ensures KeysWhole(keys, reg) ==> KeysWhole(keys, reg - {node})
  {
  }

  lemma KeysBound(keys: Keys.Map, list: seq<nat>, reg: Regions, node: nat)
    requires KeysOk(keys, list, reg) && KeysWhole(keys, reg) && node in list && node in reg && Granular(reg[node])
    requires forall k :: k in keys ==> !KeyIn(reg[node], k)
    ensures var r := reg[node]; var keys' := Keys.Ranged(keys, FirstKey(r), KeyCount(r), node);
      KeysOk(keys', list, reg) && KeysWhole(keys', reg)
  {
    RangedKeys(keys, reg[node], node);
    hide *;
    MoreKeys(keys, Keys.Ranged(keys, FirstKey(reg[node]), KeyCount(reg[node]), node), list, reg, node);
  }

  lemma MoreKeys(keys: Keys.Map, keys': Keys.Map, list: seq<nat>, reg: Regions, node: nat)
    requires KeysOk(keys, list, reg) && KeysWhole(keys, reg) && node in list && node in reg
    requires forall k :: k in keys ==> !KeyIn(reg[node], k)
    requires forall k: nat :: k in keys' <==> k in keys || KeyIn(reg[node], k)
    requires forall k :: k in keys' ==> keys'[k] == if KeyIn(reg[node], k) then node else keys[k]
    ensures KeysOk(keys', list, reg) && KeysWhole(keys', reg)
  {
    hide KeyIn;
  }

  lemma RangedKeys(keys: Keys.Map, r: Region, node: nat)
    requires Granular(r)
    ensures var keys' := Keys.Ranged(keys, FirstKey(r), KeyCount(r), node);
      && (forall k: nat :: k in keys' <==> k in keys || KeyIn(r, k))
      && (forall k :: k in keys' ==> keys'[k] == if KeyIn(r, k) then node else keys[k])
  {
    KeyRange(r);
    hide Granular, KeyIn, FirstKey, KeyCount;
  }

  /** One key of a region that is not bound means that none is. */
  lemma NoneBound(keys: Keys.Map, list: seq<nat>, reg: Regions, node: nat, k: nat)
    requires KeysOk(keys, list, reg) && KeysWhole(keys, reg) && Spaced(list, reg) && node in list && node in reg
    requires k !in keys && KeyIn(reg[node], k)
    ensures forall j :: j in keys ==> !KeyIn(reg[node], j)
  {
    hide Spaced;
    forall j | j in keys
      ensures !KeyIn(reg[node], j)
    {
      if KeyIn(reg[node], j) { OneKey(list, reg, keys[j], node, j); }
    }
  }

  /** A miss inside a region: no key of it is bound. */
  lemma MissUnbound(keys: Keys.Map, list: seq<nat>, reg: Regions, node: nat, vaddr: nat)
    requires KeysOk(keys, list, reg) && KeysWhole(keys, reg) && Spaced(list, reg) && node in list && node in reg
    requires vaddr / GRANULE !in keys && Granular(reg[node]) && reg[node].start <= vaddr < reg[node].end
    ensures forall j :: j in keys ==> !KeyIn(reg[node], j)
  {
    assert reg[node].begin <= vaddr;
    GranuleInside(reg[node], vaddr);
    hide KeysOk, KeysWhole, Spaced, Granular;
    NoneBound(keys, list, reg, node, vaddr / GRANULE);
  }

  lemma GranuleInside(r: Region, vaddr: nat)
    requires Granular(r) && Inside(r, vaddr)
    ensures KeyIn(r, vaddr / GRANULE)
  {
  }

  /** A hit in the key table is the region the list scan finds. */
  lemma KeyHit(keys: Keys.Map, list: seq<nat>, reg: Regions, vaddr: nat)
    requires KeysOk(keys, list, reg) && Spaced(list, reg) && vaddr / GRANULE in keys
    ensures keys[vaddr / GRANULE] == FirstAbove(list, reg, vaddr)
  {
    var k: nat := vaddr / GRANULE;
    var n := keys[k];
    assert n in list && KeyIn(reg[n], k);
    InGranular(list, reg, n);
    GranularParts(reg[n]);
    InsideGranule(reg[n], vaddr);
    FirstAboveIs(list, reg, vaddr);
    hide Spaced, FirstAbove, Granular, KeysOk;
  }

  lemma InsideGranule(r: Region, vaddr: nat)
    requires r.begin % GRANULE == 0 && r.end % GRANULE == 0 && Inside(r, vaddr / GRANULE * GRANULE)
    ensures Inside(r, vaddr)
  {
  }

  lemma GranularParts(r: Region)
    requires Granular(r)
    ensures r.begin % GRANULE == 0 && r.end % GRANULE == 0 && r.begin < r.end
  {
  }

  /** The region found is in the list, ends above the address, and is the only one that can hold it. */
  lemma {:induction false} FirstAboveIs(list: seq<nat>, reg: Regions, vaddr: nat)
    requires Spaced(list, reg)
    ensures var n := FirstAbove(list, reg, vaddr);
      && (n == NIL ==> forall x :: x in list ==> x in reg && reg[x].end <= vaddr)
      && (n != NIL ==> n in list && n in reg && vaddr < reg[n].end)
      && (forall x :: x in list && x in reg && Inside(reg[x], vaddr) ==> x == n)
      && (n != NIL ==> forall x :: x in list && x != n ==>
            x in reg && (reg[x].end <= vaddr || reg[n].end <= reg[x].begin))
  {
    hide Granular;
    if list != [] {
      assert list == [list[0]] + list[1..];
      SpacedSplit([list[0]], list[1..], reg);
      assert list[0] in [list[0]] && list[0] in list;
      FirstAboveIs(list[1..], reg, vaddr);
    }
  }

  /** Being clear of the next region is being clear of all that end above. */
  lemma NextBounds(list: seq<nat>, reg: Regions, begin: nat, end: nat)
    requires Spaced(list, reg)
    ensures var n := FirstAbove(list, reg, begin);
      (n == NIL || (n in reg && end <= reg[n].begin)) <==> forall x :: x in list && x in reg && begin < reg[x].end ==>
        end <= reg[x].begin
  {
    FirstAboveIs(list, reg, begin);
    var n := FirstAbove(list, reg, begin);
    if n != NIL { InGranular(list, reg, n); }
  }

  lemma InGranular(list: seq<nat>, reg: Regions, x: nat)
    requires Known(list, reg) && x in list
    ensures x in reg && x != NIL && Granular(reg[x])
  {
  }

  lemma InSpaced(list: seq<nat>, reg: Regions, x: nat)
    requires Spaced(list, reg) && x in list
    ensures x in reg && x != NIL && Granular(reg[x])
  {
  }

  /** A region more does not disturb the keys of the others. */
  lemma KeysMore(keys: Keys.Map, list: seq<nat>, list': seq<nat>, reg: Regions, node: nat, r: Region)
    requires KeysOk(keys, list, reg) && KeysWhole(keys, reg) && node !in list && forall x :: x in list ==> x in list'
    ensures KeysOk(keys, list', reg[node := r]) && KeysWhole(keys, reg[node := r])
  {
  }

  /** `list_add_last` or `list_add_pred`. */
  function Placed(list: seq<nat>, next: nat, node: nat): seq<nat>
  {
    if next == NIL then list + [node] else InsertPred(list, next, node)
  }

  lemma LinkFacts(shape: Tree, list: seq<nat>, reg: Regions, c: Ctx, node: nat, r: Region, next: nat)
    requires shape == Plug(c, Leaf) && Inorder(shape) == list && Spaced(list, reg)
    requires node !in list && node != NIL && Searching(reg, c, r.begin, next)
    ensures node !in Ids(shape) && Placed(list, next, node) == Before(c) + [node] + After(c)
    ensures forall x :: x in Placed(list, next, node) <==> x in list || x == node
    ensures Spaced(Placed(list, next, node), reg[node := r]) <==>
      Granular(r) && (next == NIL || (next in reg && r.end <= reg[next].begin))
  {
    FocusList(c, Leaf);
    InorderIds(shape);
    hide Plug, Inorder, Granular;
    BestKnown(reg, c, r.begin, next);
    NextPlace(Before(c), After(c), reg, next, node);
    InsertSpaced(Before(c), After(c), reg, node, r);
  }

  lemma BestKnown(reg: Regions, c: Ctx, addr: nat, best: nat)
    requires Searching(reg, c, addr, best) && Spaced(Before(c) + After(c), reg)
    ensures best == NIL <==> After(c) == []
    ensures best != NIL ==> best in reg && addr < reg[best].begin && best == After(c)[0]
  {
    var l := Before(c) + After(c);
    if After(c) != [] { assert l[|Before(c)|] == After(c)[0]; }
  }

  /** The list operation puts the node where the tree put it. */
  lemma NextPlace(a: seq<nat>, b: seq<nat>, reg: Regions, next: nat, node: nat)
    requires Spaced(a + b, reg) && next == if b == [] then NIL else b[0]
    ensures next == NIL <==> b == []
    ensures (if next == NIL then a + b + [node] else InsertPred(a + b, next, node)) == a + [node] + b
  {
    if b == [] {
      assert a + b + [node] == a + [node] + b;
    } else {
      assert (a + b)[|a|] == b[0] && a + b == a + [b[0]] + b[1..];
      Around(a, b[0], b[1..], reg);
      InsertPredAt(a, b[0], b[1..], node);
      assert [b[0]] + b[1..] == b;
    }
  }

  lemma StartSearch(h: Heap, root: nat, shape: Tree, reg: Regions, vaddr: nat)
    requires RbZipper.Holds(h, root, shape)
    ensures At(h, root, Top, shape) && Plug(Top, shape) == shape && Searching(reg, Top, vaddr, NIL)
  {
  }

  lemma FocusList(c: Ctx, t: Tree)
    ensures Inorder(Plug(c, t)) == Before(c) + Inorder(t) + After(c)
    ensures t.Leaf? ==> Inorder(Plug(c, t)) == Before(c) + After(c)
  {
    InorderPlug(c, t);
  }

  lemma InTheList(c: Ctx, t: Tree, reg: Regions)
    requires t.T? && Spaced(Before(c) + Inorder(t) + After(c), reg)
    ensures t.n in reg && Granular(reg[t.n])
  {
    var l := Before(c) + Inorder(t) + After(c);
    assert l[|Before(c)| + |Inorder(t.l)|] == t.n;
  }

  lemma EmptyFocus(h: Heap, root: nat, c: Ctx, t: Tree)
    requires At(h, root, c, t) && Ptr(t) == NIL
    ensures t.Leaf?
  {
  }
}
