/** The rebalancing cases of `__rb_erase_color` on tree values. */
module RbErase {
  import opened RbZipper

  /** Deletion in progress: the subtree at the focus is one black node short, and its root may be red
      below a red parent or above a red child. */
  ghost predicate Short(c: Ctx, t: Tree)
  {
    (t.T? ==> Fine(Paint(t, false))) && GoodCtx(c, Height(t) + 1)
  }

  /** The subtree fits its context, so the whole tree is red-black. */
  ghost predicate Settled(c: Ctx, t: Tree)
  {
    Fine(t) && GoodCtx(c, Height(t)) && (RootRed(t) ==> !CtxRed(c) && !c.Top?)
  }

  lemma BlackFine(t: Tree)
    requires !RootRed(t) && (t.T? ==> Fine(Paint(t, false)))
    ensures Fine(t)
  {
  }

  /** The sibling of a short subtree is not empty. */
  lemma SiblingExists(c: Ctx, t: Tree)
    requires Short(c, t) && !c.Top?
    ensures c.sib.T? && Fine(c.sib) && Height(c.sib) == Height(t) + 1
  {
    hide Fine;
    OpenCtx(c, Height(t) + 1);
    OpenFine(c.sib);
  }

  /** A red focus, or the root, is settled by painting it black. */
  lemma ShortDone(c: Ctx, t: Tree)
    requires Short(c, t) && (RootRed(t) || c.Top?)
    ensures t.T? ==> Settled(c, Paint(t, false))
    ensures t.Leaf? ==> Settled(c, t)
  {
  }

  lemma SettledRedBlack(c: Ctx, t: Tree)
    requires Settled(c, t)
    ensures RedBlack(Plug(c, t))
  {
    PlugGood(c, t);
  }

  // ---------------------------------------------------------------- focus on the left

  lemma RedSiblingL(up: Ctx, t: Tree, p: nat, red: bool, o: Tree)
    requires Short(InL(up, p, red, o), t) && RootRed(o)
    ensures !red && o.l.T? && !o.l.red
    ensures var c' := InL(InL(up, o.n, false, o.r), p, true, o.l);
      && Short(c', t)
      && RotL(T(t, p, true, Paint(o, false))) == Join(InL(up, o.n, false, o.r), Join(c', t))
      && Inorder(Plug(c', t)) == Inorder(Plug(InL(up, p, red, o), t))
  {
    hide Fine, GoodCtx, Height;
    var k := Height(t);
    OpenCtx(InL(up, p, red, o), k + 1);
    OpenFine(o);
    OpenFine(o.l);
    var d := InL(up, o.n, false, o.r);
    MakeCtx(d, k + 1);
    MakeCtx(InL(d, p, true, o.l), k + 1);
    RotLInorder(T(t, p, red, o));
    PlugSame(up, T(t, p, red, o), Join(d, T(t, p, true, o.l)));
  }

  lemma BothBlackL(up: Ctx, t: Tree, p: nat, red: bool, o: Tree)
    requires Short(InL(up, p, red, o), t) && !RootRed(t)
    requires o.T? && !o.red && !RootRed(o.l) && !RootRed(o.r)
    ensures var t' := T(t, p, red, Paint(o, true));
      && Short(up, t') && Inorder(Plug(up, t')) == Inorder(Plug(InL(up, p, red, o), t))
  {
    hide Fine, GoodCtx;
    BlackFine(t);
    OpenCtx(InL(up, p, red, o), Height(t) + 1);
    OpenFine(o);
    MakeFine(o.l, o.n, true, o.r);
    MakeFine(t, p, false, Paint(o, true));
    PlugSame(up, T(t, p, red, o), T(t, p, red, Paint(o, true)));
  }

  /** The sibling after its near red child has been rotated above it. */
  ghost function NearL(o: Tree): Tree
    requires o.T? && o.l.T?
  {
    RotR(T(Paint(o.l, false), o.n, true, o.r))
  }

  lemma NearRedL(up: Ctx, t: Tree, p: nat, red: bool, o: Tree)
    requires Short(InL(up, p, red, o), t) && o.T? && !o.red && RootRed(o.l) && !RootRed(o.r)
    ensures var o' := NearL(o);
      && Short(InL(up, p, red, o'), t) && !o'.red && RootRed(o'.r)
      && Inorder(Plug(InL(up, p, red, o'), t)) == Inorder(Plug(InL(up, p, red, o), t))
  {
    hide Fine, GoodCtx, Height;
    var k := Height(t);
    var o' := NearL(o);
    OpenCtx(InL(up, p, red, o), k + 1);
    OpenFine(o);
    OpenFine(o.l);
    MakeFine(o.l.r, o.n, true, o.r);
    MakeFine(o'.l, o'.n, false, o'.r);
    MakeCtx(InL(up, p, red, o'), k + 1);
    RotRInorder(o);
    assert Inorder(o') == Inorder(RotR(o));
    PlugSame(up, T(t, p, red, o), T(t, p, red, o'));
  }

  /** The parent's subtree after the last rotation. */
  ghost function FarL(t: Tree, p: nat, red: bool, o: Tree): Tree
    requires o.T? && o.r.T?
  {
    RotL(T(t, p, false, T(o.l, o.n, red, Paint(o.r, false))))
  }

  lemma FarRedL(up: Ctx, t: Tree, p: nat, red: bool, o: Tree)
    requires Short(InL(up, p, red, o), t) && !RootRed(t) && o.T? && !o.red && RootRed(o.r)
    ensures var t' := FarL(t, p, red, o);
      && Settled(up, t') && Inorder(Plug(up, t')) == Inorder(Plug(InL(up, p, red, o), t))
  {
    hide Fine, GoodCtx, Height;
    BlackFine(t);
    var k := Height(t);
    var t' := FarL(t, p, red, o);
    OpenCtx(InL(up, p, red, o), k + 1);
    OpenFine(o);
    OpenFine(o.r);
    MakeFine(t, p, false, o.l);
    MakeFine(o.r.l, o.r.n, false, o.r.r);
    MakeFine(t'.l, t'.n, t'.red, t'.r);
    RotLInorder(T(t, p, red, o));
    assert Inorder(t') == Inorder(RotL(T(t, p, red, o)));
    PlugSame(up, T(t, p, red, o), t');
  }

  // ---------------------------------------------------------------- focus on the right

  lemma RedSiblingR(up: Ctx, t: Tree, p: nat, red: bool, o: Tree)
    requires Short(InR(up, p, red, o), t) && RootRed(o)
    ensures !red && o.r.T? && !o.r.red
    ensures var c' := InR(InR(up, o.n, false, o.l), p, true, o.r);
      && Short(c', t)
      && RotR(T(Paint(o, false), p, true, t)) == Join(InR(up, o.n, false, o.l), Join(c', t))
      && Inorder(Plug(c', t)) == Inorder(Plug(InR(up, p, red, o), t))
  {
    hide Fine, GoodCtx, Height;
    var k := Height(t);
    OpenCtx(InR(up, p, red, o), k + 1);
    OpenFine(o);
    OpenFine(o.r);
    var d := InR(up, o.n, false, o.l);
    MakeCtx(d, k + 1);
    MakeCtx(InR(d, p, true, o.r), k + 1);
    RotRInorder(T(o, p, red, t));
    PlugSame(up, T(o, p, red, t), Join(d, T(o.r, p, true, t)));
  }

  lemma BothBlackR(up: Ctx, t: Tree, p: nat, red: bool, o: Tree)
    requires Short(InR(up, p, red, o), t) && !RootRed(t)
    requires o.T? && !o.red && !RootRed(o.l) && !RootRed(o.r)
    ensures var t' := T(Paint(o, true), p, red, t);
      && Short(up, t') && Inorder(Plug(up, t')) == Inorder(Plug(InR(up, p, red, o), t))
  {
    hide Fine, GoodCtx;
    BlackFine(t);
    OpenCtx(InR(up, p, red, o), Height(t) + 1);
    OpenFine(o);
    MakeFine(o.l, o.n, true, o.r);
    MakeFine(Paint(o, true), p, false, t);
    PlugSame(up, T(o, p, red, t), T(Paint(o, true), p, red, t));
  }

  ghost function NearR(o: Tree): Tree
    requires o.T? && o.r.T?
  {
    RotL(T(o.l, o.n, true, Paint(o.r, false)))
  }

  lemma NearRedR(up: Ctx, t: Tree, p: nat, red: bool, o: Tree)
    requires Short(InR(up, p, red, o), t) && o.T? && !o.red && RootRed(o.r) && !RootRed(o.l)
    ensures var o' := NearR(o);
      && Short(InR(up, p, red, o'), t) && !o'.red && RootRed(o'.l)
      && Inorder(Plug(InR(up, p, red, o'), t)) == Inorder(Plug(InR(up, p, red, o), t))
  {
    hide Fine, GoodCtx, Height;
    var k := Height(t);
    var o' := NearR(o);
    OpenCtx(InR(up, p, red, o), k + 1);
    OpenFine(o);
    OpenFine(o.r);
    MakeFine(o.l, o.n, true, o.r.l);
    MakeFine(o'.l, o'.n, false, o'.r);
    MakeCtx(InR(up, p, red, o'), k + 1);
    RotLInorder(o);
    assert Inorder(o') == Inorder(RotL(o));
    PlugSame(up, T(o, p, red, t), T(o', p, red, t));
  }

  ghost function FarR(t: Tree, p: nat, red: bool, o: Tree): Tree
    requires o.T? && o.l.T?
  {
    RotR(T(T(Paint(o.l, false), o.n, red, o.r), p, false, t))
  }

  lemma FarRedR(up: Ctx, t: Tree, p: nat, red: bool, o: Tree)
    requires Short(InR(up, p, red, o), t) && !RootRed(t) && o.T? && !o.red && RootRed(o.l)
    ensures var t' := FarR(t, p, red, o);
      && Settled(up, t') && Inorder(Plug(up, t')) == Inorder(Plug(InR(up, p, red, o), t))
  {
    hide Fine, GoodCtx, Height;
    BlackFine(t);
    var k := Height(t);
    var t' := FarR(t, p, red, o);
    OpenCtx(InR(up, p, red, o), k + 1);
    OpenFine(o);
    OpenFine(o.l);
    MakeFine(o.r, p, false, t);
    MakeFine(o.l.l, o.l.n, false, o.l.r);
    MakeFine(t'.l, t'.n, t'.red, t'.r);
    RotRInorder(T(o, p, red, t));
    assert Inorder(t') == Inorder(RotR(T(o, p, red, t)));
    PlugSame(up, T(o, p, red, t), t');
  }
}

/** Taking a node out of a tree: splicing out a node with at most one child, and putting the in-order
    successor in the place of a node with two. */
module RbSplice {
  import opened RbZipper
  import opened RbErase

  /** Context d inside context x. */
  ghost function Compose(d: Ctx, x: Ctx): Ctx
  {
    match d
    case Top => x
    case InL(up, n, red, sib) => InL(Compose(up, x), n, red, sib)
    case InR(up, n, red, sib) => InR(Compose(up, x), n, red, sib)
  }

  lemma {:induction false} ComposePlug(d: Ctx, x: Ctx, t: Tree)
    ensures Plug(Compose(d, x), t) == Plug(x, Plug(d, t))
  {
    if !d.Top? { ComposePlug(d.up, x, Join(d, t)); }
  }

  /** The path to a leftmost node. */
  ghost predicate LeftPath(d: Ctx)
  {
    d.Top? || (d.InL? && LeftPath(d.up))
  }

  lemma {:induction false} LeftPathBefore(d: Ctx)
    requires LeftPath(d)
    ensures Before(d) == []
  {
    if !d.Top? { LeftPathBefore(d.up); }
  }

  /** Balance does not depend on which node stands where. */
  lemma {:induction false} RenameGood(d: Ctx, c: Ctx, n: nat, n': nat, red: bool, l: Tree, k: nat)
    requires GoodCtx(Compose(d, InR(c, n, red, l)), k)
    ensures GoodCtx(Compose(d, InR(c, n', red, l)), k)
  {
    var e, e' := Compose(d, InR(c, n, red, l)), Compose(d, InR(c, n', red, l));
    OpenCtx(e, k);
    if d.Top? {
      MakeCtx(e', k);
    } else {
      RenameGood(d.up, c, n, n', red, l, if d.red then k else k + 1);
      RenameRed(d.up, c, n, n', red, l);
      MakeCtx(e', k);
    }
  }

  lemma RenameRed(d: Ctx, c: Ctx, n: nat, n': nat, red: bool, l: Tree)
    ensures var e, e' := Compose(d, InR(c, n, red, l)), Compose(d, InR(c, n', red, l));
      !e.Top? && !e'.Top? && CtxRed(e) == CtxRed(e')
  {
  }

  /** The only child of a node, or nothing. */
  ghost function OnlyChild(t: Tree): Tree
    requires t.T?
  {
    if t.l.Leaf? then t.r else t.l
  }

  lemma SpliceRep(h: Heap, h': Heap, root: nat, root': nat, c: Ctx, t: Tree)
    requires At(h, root, c, t) && t.T? && (t.l.Leaf? || t.r.Leaf?)
    requires var ch := OnlyChild(t);
      && Only(h, h', {Ptr(ch), ParOf(c)})
      && (ch.T? ==> ch.n < |h'| && h'[ch.n] == h[ch.n].(parent := ParOf(c)))
      && (c.Top? ==> root' == Ptr(ch)) && (!c.Top? ==> root' == root)
      && (c.InL? ==> c.n < |h'| && h'[c.n] == h[c.n].(left := Ptr(ch)))
      && (c.InR? ==> c.n < |h'| && h'[c.n] == h[c.n].(right := Ptr(ch)))
    ensures At(h', root', c, OnlyChild(t))
  {
    hide Rep, Distinct, Ids, RepCtx, DistinctCtx, CtxIds, Only;
    var ch := OnlyChild(t);
    var s := {Ptr(ch), ParOf(c)};
    Open(h, ParOf(c), t);
    Open(h, t.n, ch);
    CtxRepIds(h, root, c, t.n);
    ParInCtx(c);
    PtrInIds(ch);
    Relink(h, h', s, root, root', c, t.n, Ptr(ch));
    Reparent(h, h', s, t.n, ParOf(c), ch);
  }

  /** After splicing: nothing is short if the node was red, one black node is missing if it was black. */
  lemma SpliceGood(c: Ctx, t: Tree)
    requires RedBlack(Plug(c, t)) && t.T? && (t.l.Leaf? || t.r.Leaf?)
    ensures t.red ==> Settled(c, OnlyChild(t))
    ensures !t.red ==> Short(c, OnlyChild(t))
  {
    UnplugGood(c, t);
    hide Fine, GoodCtx, Plug;
    assert Fine(t) by { FineIs(t); }
    OpenFine(t);
    var ch := OnlyChild(t);
    OpenFine(ch);
    if ch.T? { MakeFine(ch.l, ch.n, false, ch.r); }
  }

  lemma FineIs(t: Tree)
    ensures Fine(t) <==> NoRedRed(t) && Balanced(t)
  {
  }

  lemma SpliceInorder(c: Ctx, t: Tree)
    requires t.T? && (t.l.Leaf? || t.r.Leaf?)
    ensures Inorder(Plug(c, t)) == (Before(c) + Inorder(t.l)) + [t.n] + (Inorder(t.r) + After(c))
    ensures Inorder(Plug(c, OnlyChild(t))) == (Before(c) + Inorder(t.l)) + (Inorder(t.r) + After(c))
  {
    AroundFocus(c, t);
    InorderPlug(c, OnlyChild(t));
    assert Inorder(OnlyChild(t)) == Inorder(t.l) + Inorder(t.r);
    Around(Before(c), Inorder(t.l), [], Inorder(t.r), After(c));
  }

  lemma Around(a: seq<nat>, b: seq<nat>, c: seq<nat>, d: seq<nat>, e: seq<nat>)
    ensures a + (b + c + d) + e == (a + b) + c + (d + e)
    ensures c == [] ==> b + c + d == b + d && (a + b) + c + (d + e) == (a + b) + (d + e)
  {
  }

  /** Node y, outside the tree, takes over the links and the colour of the root of t. */
  lemma ReplaceRep(h: Heap, h': Heap, root: nat, root': nat, c: Ctx, t: Tree, y: nat)
    requires At(h, root, c, t) && t.T? && y !in Ids(t) && y !in CtxIds(c) && y != NIL && y < |h|
    requires Only(h, h', {y, t.n, Ptr(t.l), Ptr(t.r), ParOf(c)})
    requires y < |h'| && h'[y] == Node(ParOf(c), t.red, Ptr(t.l), Ptr(t.r))
    requires t.l.T? ==> t.l.n < |h'| && h'[t.l.n] == h[t.l.n].(parent := y)
    requires t.r.T? ==> t.r.n < |h'| && h'[t.r.n] == h[t.r.n].(parent := y)
    requires (c.Top? ==> root' == y) && (!c.Top? ==> root' == root)
    requires c.InL? ==> c.n < |h'| && h'[c.n] == h[c.n].(left := y)
    requires c.InR? ==> c.n < |h'| && h'[c.n] == h[c.n].(right := y)
    ensures At(h', root', c, T(t.l, y, t.red, t.r))
  {
    hide Rep, Distinct, Ids, RepCtx, DistinctCtx, CtxIds, Only;
    var s := {y, t.n, Ptr(t.l), Ptr(t.r), ParOf(c)};
    Open(h, ParOf(c), t);
    Open(h, t.n, t.l);
    Open(h, t.n, t.r);
    CtxRepIds(h, root, c, t.n);
    ParInCtx(c);
    PtrInIds(t.l);
    PtrInIds(t.r);
    Relink(h, h', s, root, root', c, t.n, y);
    Reparent(h, h', s, t.n, y, t.l);
    Reparent(h, h', s, t.n, y, t.r);
    Close(h', ParOf(c), T(t.l, y, t.red, t.r));
  }

  /** The tree with node t.n replaced by its in-order successor, the leftmost node s of its right subtree. */
  lemma SuccessorGood(c: Ctx, t: Tree, d: Ctx, s: Tree)
    requires RedBlack(Plug(c, t)) && t.T? && s.T? && s.l.Leaf? && t.r == Plug(d, s)
    ensures var e := Compose(d, InR(c, s.n, t.red, t.l));
      (s.red ==> Settled(e, s.r)) && (!s.red ==> Short(e, s.r))
  {
    var e0, e := Compose(d, InR(c, t.n, t.red, t.l)), Compose(d, InR(c, s.n, t.red, t.l));
    ComposePlug(d, InR(c, t.n, t.red, t.l), s);
    assert Plug(e0, s) == Plug(c, t);
    hide Plug, Fine, GoodCtx, Compose, Height;
    SpliceGood(e0, s);
    RenameGood(d, c, t.n, s.n, t.red, t.l, if s.red then Height(s.r) else Height(s.r) + 1);
    RenameRed(d, c, t.n, s.n, t.red, t.l);
  }

  /** The leftmost node comes first. */
  lemma LeftmostFirst(d: Ctx, s: Tree)
    requires s.T? && s.l.Leaf? && LeftPath(d)
    ensures Inorder(Plug(d, s)) == [s.n] + Inorder(Plug(d, s.r))
  {
    InorderPlug(d, s);
    InorderPlug(d, s.r);
    LeftPathBefore(d);
    assert Inorder(s) == [s.n] + Inorder(s.r);
    assert [] + ([s.n] + Inorder(s.r)) + After(d) == [s.n] + ([] + Inorder(s.r) + After(d));
  }

  lemma Shift(p: seq<nat>, y: seq<nat>, x: seq<nat>, q: seq<nat>)
    ensures p + y + (x + q) == p + ((y + x) + q)
  {
  }

  /** The in-order sequence around the root of t. */
  lemma AroundFocus(c: Ctx, t: Tree)
    requires t.T?
    ensures Inorder(Plug(c, t)) == (Before(c) + Inorder(t.l)) + [t.n] + (Inorder(t.r) + After(c))
  {
    InorderPlug(c, t);
    Around(Before(c), Inorder(t.l), [t.n], Inorder(t.r), After(c));
  }

  lemma SuccessorInorder(c: Ctx, t: Tree, d: Ctx, s: Tree)
    requires t.T? && s.T? && s.l.Leaf? && LeftPath(d) && t.r == Plug(d, s)
    ensures Inorder(Plug(Compose(d, InR(c, s.n, t.red, t.l)), s.r))
      == (Before(c) + Inorder(t.l)) + (Inorder(t.r) + After(c))
    ensures Inorder(Plug(c, t)) == (Before(c) + Inorder(t.l)) + [t.n] + (Inorder(t.r) + After(c))
  {
    var r := Plug(d, s.r);
    AroundFocus(c, t);
    AroundFocus(c, T(t.l, s.n, t.red, r));
    LeftmostFirst(d, s);
    ComposePlug(d, InR(c, s.n, t.red, t.l), s.r);
    assert Plug(InR(c, s.n, t.red, t.l), r) == Plug(c, T(t.l, s.n, t.red, r));
    Shift(Before(c) + Inorder(t.l), [s.n], Inorder(r), After(c));
  }

  /** Every node of a tree is at the focus of some context. */
  lemma {:induction false} Locate(tree: Tree, n: nat) returns (c: Ctx, t: Tree)
    requires n in Ids(tree)
    ensures t.T? && t.n == n && Plug(c, t) == tree
  {
    if tree.n == n {
      return Top, tree;
    }
    if n in Ids(tree.l) {
      c, t := Locate(tree.l, n);
      ComposePlug(c, InL(Top, tree.n, tree.red, tree.r), t);
      c := Compose(c, InL(Top, tree.n, tree.red, tree.r));
    } else {
      c, t := Locate(tree.r, n);
      ComposePlug(c, InR(Top, tree.n, tree.red, tree.l), t);
      c := Compose(c, InR(Top, tree.n, tree.red, tree.l));
    }
  }

  // ---------------------------------------------------------------- the successor's position

  lemma {:induction false} PlugRoot(d: Ctx, s: Tree, s': Tree)
    requires !d.Top?
    ensures Plug(d, s).T? && Plug(d, s').T? && Plug(d, s).n == Plug(d, s').n
  {
    if !d.up.Top? { PlugRoot(d.up, Join(d, s), Join(d, s')); }
  }

  /** The nodes that moving the successor touches, when it is the right child itself. */
  lemma AdjacentView(h: Heap, root: nat, c: Ctx, t: Tree)
    requires At(h, root, c, t) && t.T? && t.l.T? && t.r.T?
    ensures var x, y, l, pc := t.n, t.r.n, t.l.n, ParOf(c);
      && x < |h| && y < |h| && l < |h| && y != NIL && l != NIL && (pc != NIL ==> pc < |h|)
      && x != y && x != l && y != l && pc != x && pc != y && pc != l
      && h[x] == Node(pc, t.red, l, y) && h[y] == Node(x, t.r.red, Ptr(t.r.l), Ptr(t.r.r))
      && (pc == NIL <==> c.Top?) && (pc != NIL ==> (h[pc].left == x <==> c.InL?))
      && Ptr(t.r.r) != y
  {
    hide Rep, Distinct, Ids, RepCtx, DistinctCtx, CtxIds;
    CtxRepIds(h, root, c, t.n);
    Open(h, ParOf(c), t);
    Open(h, t.n, t.l);
    Open(h, t.n, t.r);
    PtrInIds(t.l);
    PtrInIds(t.r);
    PtrInIds(t.r.r);
    ParInCtx(c);
    HoleLink(h, root, c, t.n);
  }

  lemma AdjacentRep(h: Heap, h': Heap, root: nat, root': nat, c: Ctx, t: Tree)
    requires At(h, root, c, t) && t.T? && t.l.T? && t.r.T? && t.r.l.Leaf?
    requires Only(h, h', {t.r.n, t.l.n, ParOf(c)})
    requires t.r.n < |h'| && h'[t.r.n] == Node(ParOf(c), t.red, t.l.n, Ptr(t.r.r))
    requires t.l.n < |h'| && t.l.n < |h| && h'[t.l.n] == h[t.l.n].(parent := t.r.n)
    requires (c.Top? ==> root' == t.r.n) && (!c.Top? ==> root' == root)
    requires c.InL? ==> c.n < |h'| && c.n < |h| && h'[c.n] == h[c.n].(left := t.r.n)
    requires c.InR? ==> c.n < |h'| && c.n < |h| && h'[c.n] == h[c.n].(right := t.r.n)
    ensures At(h', root', InR(c, t.r.n, t.red, t.l), t.r.r)
  {
    hide Rep, Distinct, Ids, RepCtx, DistinctCtx, CtxIds, Only;
    var y := t.r.n;
    var s := {y, t.l.n, ParOf(c)};
    CtxRepIds(h, root, c, t.n);
    Open(h, ParOf(c), t);
    Open(h, t.n, t.l);
    Open(h, t.n, t.r);
    PtrInIds(t.l);
    ParInCtx(c);
    Relink(h, h', s, root, root', c, t.n, y);
    Reparent(h, h', s, t.n, y, t.l);
    TreeKept(h, h', s, y, t.r.r);
    Close(h', ParOf(c), T(t.l, y, t.red, t.r.r));
    DownR(c, T(t.l, y, t.red, t.r.r));
    Refocus(h', root', c, T(t.l, y, t.red, t.r.r), InR(c, y, t.red, t.l), t.r.r);
  }

  /** The heap after splicing out a leftmost node s that hangs below d. */
  ghost function SplicedLeft(h: Heap, p: nat, child: nat): Heap
    requires p < |h| && child < |h|
  {
    var h1 := if child == NIL then h else h[child := h[child].(parent := p)];
    h1[p := h1[p].(left := child)]
  }

  /** The nodes that moving the successor touches, when it lies deeper. */
  lemma DistantView(h: Heap, root: nat, c: Ctx, t: Tree, d: Ctx, s: Tree)
    requires At(h, root, c, t) && t.T? && t.l.T? && t.r == Plug(d, s) && d.InL? && s.T? && s.l.Leaf?
    ensures var x, y, l, r, pc, p, ch := t.n, s.n, t.l.n, Ptr(t.r), ParOf(c), d.n, Ptr(s.r);
      && x < |h| && y < |h| && l < |h| && r < |h| && p < |h| && ch < |h| && (pc != NIL ==> pc < |h|)
      && x != NIL && y != NIL && l != NIL && r != NIL && p != NIL
      && y != x && y != l && y != r && y != pc && y != p && y != ch
      && x != l && x != r && x != pc && x != p && x != ch && pc != l && pc != r && pc != p && (pc == NIL || pc != ch)
      && l != r && l != p && l != ch && ch != p && ch != r
      && h[x] == Node(pc, t.red, l, r) && h[y] == Node(p, s.red, NIL, ch)
      && (pc == NIL <==> c.Top?) && (pc != NIL ==> (h[pc].left == x <==> c.InL?))
  {
    PlugRoot(d, s, s.r);
    hide Rep, Distinct, Ids, RepCtx, DistinctCtx, CtxIds, Plug;
    CtxRepIds(h, root, c, t.n);
    Open(h, ParOf(c), t);
    Open(h, t.n, t.l);
    RightView(h, t.n, t.r, d, s);
    PtrInIds(t.l);
    PtrInIds(t.r);
    ParInCtx(c);
    HoleLink(h, root, c, t.n);
  }

  lemma SuccessorOutside(h: Heap, root: nat, c: Ctx, t: Tree, d: Ctx, s: Tree)
    requires At(h, root, c, t) && t.T? && t.r == Plug(d, s) && d.InL? && s.T? && s.l.Leaf?
    ensures s.n !in Ids(T(t.l, t.n, t.red, Plug(d, s.r))) && s.n !in CtxIds(c)
  {
    hide Rep, Distinct, Ids, RepCtx, DistinctCtx, CtxIds, Plug;
    Open(h, ParOf(c), t);
    RightView(h, t.n, t.r, d, s);
    IdsOfT(t.l, t.n, t.red, Plug(d, s.r));
  }

  lemma IdsOfT(l: Tree, n: nat, red: bool, r: Tree)
    ensures Ids(T(l, n, red, r)) == Ids(l) + {n} + Ids(r)
  {
  }

  /** The right subtree hung as a tree of its own. */
  lemma OwnTree(h: Heap, par: nat, r: Tree, d: Ctx, s: Tree)
    requires Rep(h, par, r) && Distinct(r) && r.T? && r == Plug(d, s)
    ensures r.n < |h| && At(h[r.n := h[r.n].(parent := NIL)], r.n, d, s)
  {
    hide Plug, Distinct, Ids;
    var h1 := h[r.n := h[r.n].(parent := NIL)];
    Reparent(h, h1, {r.n}, par, NIL, r);
    Unzip(h1, r.n, d, s);
  }

  /** The nodes around the focus of a tree of its own. */
  lemma FocusIds(h: Heap, root: nat, d: Ctx, s: Tree)
    requires At(h, root, d, s) && d.InL? && s.T? && s.l.Leaf?
    ensures root in CtxIds(d) && d.n in CtxIds(d) && s.n in Ids(s) && s.n !in CtxIds(d)
    ensures s.n !in Ids(s.r) && (s.r.T? ==> s.r.n in Ids(s) && s.r.n !in CtxIds(d) && s.r.n != s.n)
    ensures forall n :: n in Ids(s.r) ==> n in Ids(s)
    ensures s.n < |h| && d.n < |h| && Ptr(s.r) < |h| && h[s.n] == Node(d.n, s.red, NIL, Ptr(s.r))
  {
    hide Rep, RepCtx, Distinct, DistinctCtx, CtxIds, Ids;
    View(h, root, d, s);
    RootInCtx(h, root, d, s.n);
    Open(h, d.n, s);
    View2(h, s);
    ParInCtx(d);
    PtrInIds(s.r);
  }

  /** Inside the right subtree. */
  lemma RightView(h: Heap, par: nat, r: Tree, d: Ctx, s: Tree)
    requires Rep(h, par, r) && Distinct(r) && r == Plug(d, s) && d.InL? && s.T? && s.l.Leaf?
    ensures r.T? && s.n != r.n && s.n != d.n && (s.r.T? ==> s.r.n != r.n && s.r.n != d.n && s.r.n != s.n)
    ensures s.n < |h| && d.n < |h| && Ptr(s.r) < |h| && h[s.n] == Node(d.n, s.red, NIL, Ptr(s.r))
    ensures s.n in Ids(r) && d.n in Ids(r) && (s.r.T? ==> s.r.n in Ids(r)) && s.n !in Ids(Plug(d, s.r))
  {
    PlugRoot(d, s, s);
    OwnTree(h, par, r, d, s);
    hide At, Rep, Distinct, CtxIds, Plug, Ids;
    var h1 := h[r.n := h[r.n].(parent := NIL)];
    FocusIds(h1, r.n, d, s);
    IdsPlug(d, s);
    IdsPlug(d, s.r);
  }

  lemma View2(h: Heap, s: Tree)
    requires s.T? && Rep(h, s.n, s.r)
    ensures s.r.T? ==> s.r.n < |h|
  {
  }

  lemma {:induction false} IdsPlug(d: Ctx, t: Tree)
    ensures Ids(Plug(d, t)) == CtxIds(d) + Ids(t)
  {
    if !d.Top? { IdsPlug(d.up, Join(d, t)); }
  }
}
