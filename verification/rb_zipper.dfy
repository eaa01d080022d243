/** Red-black trees as values: the shape that the pointers of kernel/libk/rbtree.c spell out, and
    one-hole contexts for the path from the root to the node a loop is working on. */
module RbZipper {

  const NIL: nat := 0

  /** `struct rb_node`: parent and colour share one word in the source. */
  datatype Node = Node(parent: nat, red: bool, left: nat, right: nat)

  type Heap = seq<Node>

  datatype Tree = Leaf | T(l: Tree, n: nat, red: bool, r: Tree)

  /** A tree with a hole: the hole is the root, or a left or right child of node n. */
  datatype Ctx = Top | InL(up: Ctx, n: nat, red: bool, sib: Tree) | InR(up: Ctx, n: nat, red: bool, sib: Tree)

  ghost function Ptr(t: Tree): nat { if t.Leaf? then NIL else t.n }

  ghost function ParOf(c: Ctx): nat { if c.Top? then NIL else c.n }

  ghost function Plug(c: Ctx, t: Tree): Tree
  {
    match c
    case Top => t
    case InL(up, n, red, sib) => Plug(up, T(t, n, red, sib))
    case InR(up, n, red, sib) => Plug(up, T(sib, n, red, t))
  }

  ghost function Inorder(t: Tree): seq<nat>
  {
    if t.Leaf? then [] else Inorder(t.l) + [t.n] + Inorder(t.r)
  }

  ghost function Before(c: Ctx): seq<nat>
  {
    match c
    case Top => []
    case InL(up, n, red, sib) => Before(up)
    case InR(up, n, red, sib) => Before(up) + Inorder(sib) + [n]
  }

  ghost function After(c: Ctx): seq<nat>
  {
    match c
    case Top => []
    case InL(up, n, red, sib) => [n] + Inorder(sib) + After(up)
    case InR(up, n, red, sib) => After(up)
  }

  lemma AssocL(a: seq<nat>, b: seq<nat>, c: seq<nat>, d: seq<nat>, e: seq<nat>)
    ensures a + (b + c + d) + e == a + b + (c + d + e)
  {
  }

  lemma AssocR(a: seq<nat>, b: seq<nat>, c: seq<nat>, d: seq<nat>, e: seq<nat>)
    ensures a + (b + c + d) + e == (a + b + c) + d + e
  {
  }

  lemma {:induction false} InorderPlug(c: Ctx, t: Tree)
    ensures Inorder(Plug(c, t)) == Before(c) + Inorder(t) + After(c)
  {
    match c
    case Top =>
    case InL(up, n, red, sib) =>
      InorderPlug(up, T(t, n, red, sib));
      AssocL(Before(up), Inorder(t), [n], Inorder(sib), After(up));
    case InR(up, n, red, sib) =>
      InorderPlug(up, T(sib, n, red, t));
      AssocR(Before(up), Inorder(sib), [n], Inorder(t), After(up));
  }

  // ---------------------------------------------------------------- representation in the heap

  ghost function Ids(t: Tree): set<nat>
  {
    if t.Leaf? then {} else Ids(t.l) + {t.n} + Ids(t.r)
  }

  ghost function CtxIds(c: Ctx): set<nat>
  {
    if c.Top? then {} else CtxIds(c.up) + {c.n} + Ids(c.sib)
  }

  /** The pointers below (and including) the root of t spell out t; `par` is its parent. */
  ghost predicate Rep(h: Heap, par: nat, t: Tree)
    decreases t
  {
    t.T? ==>
      && t.n != NIL && t.n < |h| && h[t.n] == Node(par, t.red, Ptr(t.l), Ptr(t.r))
      && Rep(h, t.n, t.l) && Rep(h, t.n, t.r)
  }

  /** The pointers above the hole spell out c; `hole` is what the link at the hole holds. */
  ghost predicate RepCtx(h: Heap, root: nat, c: Ctx, hole: nat)
  {
    match c
    case Top => root == hole
    case InL(up, n, red, sib) =>
      && n != NIL && n < |h| && h[n] == Node(ParOf(up), red, hole, Ptr(sib))
      && Rep(h, n, sib) && RepCtx(h, root, up, n)
    case InR(up, n, red, sib) =>
      && n != NIL && n < |h| && h[n] == Node(ParOf(up), red, Ptr(sib), hole)
      && Rep(h, n, sib) && RepCtx(h, root, up, n)
  }

  /** No node occurs twice. */
  ghost predicate Distinct(t: Tree)
  {
    t.T? ==>
      && t.n !in Ids(t.l) && t.n !in Ids(t.r) && Ids(t.l) !! Ids(t.r)
      && Distinct(t.l) && Distinct(t.r)
  }

  ghost predicate DistinctCtx(c: Ctx)
  {
    !c.Top? ==>
      && c.n !in Ids(c.sib) && c.n !in CtxIds(c.up) && Ids(c.sib) !! CtxIds(c.up)
      && Distinct(c.sib) && DistinctCtx(c.up)
  }

  /** The heap holds Plug(c, t), seen from the root of t. */
  ghost predicate At(h: Heap, root: nat, c: Ctx, t: Tree)
  {
    && RepCtx(h, root, c, Ptr(t)) && Rep(h, ParOf(c), t)
    && DistinctCtx(c) && Distinct(t) && CtxIds(c) !! Ids(t)
  }

  ghost predicate Holds(h: Heap, root: nat, t: Tree)
  {
    root == Ptr(t) && Rep(h, NIL, t) && Distinct(t)
  }

  lemma {:induction false} RepFrame(h: Heap, h': Heap, par: nat, t: Tree)
    requires Rep(h, par, t)
    requires forall n :: n in Ids(t) ==> n < |h| == |h'| && h'[n] == h[n]
    ensures Rep(h', par, t)
    decreases t
  {
    if t.T? {
      RepFrame(h, h', t.n, t.l);
      RepFrame(h, h', t.n, t.r);
    }
  }

  lemma {:induction false} CtxFrame(h: Heap, h': Heap, root: nat, c: Ctx, hole: nat)
    requires RepCtx(h, root, c, hole)
    requires forall n :: n in CtxIds(c) ==> n < |h| == |h'| && h'[n] == h[n]
    ensures RepCtx(h', root, c, hole)
  {
    if !c.Top? {
      RepFrame(h, h', c.n, c.sib);
      CtxFrame(h, h', root, c.up, c.n);
    }
  }

  lemma {:induction false} RepIds(h: Heap, par: nat, t: Tree)
    requires Rep(h, par, t)
    ensures NIL !in Ids(t) && (forall n :: n in Ids(t) ==> n < |h|)
    decreases t
  {
    if t.T? { RepIds(h, t.n, t.l); RepIds(h, t.n, t.r); }
  }

  lemma {:induction false} CtxRepIds(h: Heap, root: nat, c: Ctx, hole: nat)
    requires RepCtx(h, root, c, hole)
    ensures NIL !in CtxIds(c) && (forall n :: n in CtxIds(c) ==> n < |h|)
  {
    if !c.Top? { RepIds(h, c.n, c.sib); CtxRepIds(h, root, c.up, c.n); }
  }

  /** One level of a represented tree. */
  lemma Open(h: Heap, par: nat, t: Tree)
    requires Rep(h, par, t) && Distinct(t)
    ensures NIL !in Ids(t) && (forall n :: n in Ids(t) ==> n < |h|)
    ensures t.Leaf? ==> Ids(t) == {}
    ensures t.T? ==>
      && t.n < |h| && t.n != NIL && h[t.n] == Node(par, t.red, Ptr(t.l), Ptr(t.r))
      && Rep(h, t.n, t.l) && Rep(h, t.n, t.r) && Distinct(t.l) && Distinct(t.r)
      && t.n !in Ids(t.l) && t.n !in Ids(t.r) && Ids(t.l) !! Ids(t.r)
      && Ids(t) == Ids(t.l) + {t.n} + Ids(t.r)
  {
    RepIds(h, par, t);
  }

  lemma Close(h: Heap, par: nat, t: Tree)
    requires t.T? && t.n < |h| && t.n != NIL && h[t.n] == Node(par, t.red, Ptr(t.l), Ptr(t.r))
    requires Rep(h, t.n, t.l) && Rep(h, t.n, t.r) && Distinct(t.l) && Distinct(t.r)
    requires t.n !in Ids(t.l) && t.n !in Ids(t.r) && Ids(t.l) !! Ids(t.r)
    ensures Rep(h, par, t) && Distinct(t) && Ids(t) == Ids(t.l) + {t.n} + Ids(t.r)
  {
  }

  /** Going up to the root and coming back down. */
  lemma {:induction false} Zip(h: Heap, root: nat, c: Ctx, t: Tree)
    requires At(h, root, c, t)
    ensures Holds(h, root, Plug(c, t))
    ensures Ids(Plug(c, t)) == CtxIds(c) + Ids(t)
  {
    match c
    case Top =>
    case InL(up, n, red, sib) => Zip(h, root, up, T(t, n, red, sib));
    case InR(up, n, red, sib) => Zip(h, root, up, T(sib, n, red, t));
  }

  lemma {:induction false} Unzip(h: Heap, root: nat, c: Ctx, t: Tree)
    requires Holds(h, root, Plug(c, t))
    ensures At(h, root, c, t)
  {
    match c
    case Top =>
    case InL(up, n, red, sib) => Unzip(h, root, up, T(t, n, red, sib));
    case InR(up, n, red, sib) => Unzip(h, root, up, T(sib, n, red, t));
  }

  // ---------------------------------------------------------------- balance

  ghost predicate RootRed(t: Tree) { t.T? && t.red }

  ghost predicate CtxRed(c: Ctx) { !c.Top? && c.red }

  /** Black nodes on the way down (the two sides agree when Balanced holds). */
  ghost function Height(t: Tree): nat
  {
    if t.Leaf? then 0 else Height(t.l) + if t.red then 0 else 1
  }

  ghost predicate Balanced(t: Tree)
  {
    t.T? ==> Height(t.l) == Height(t.r) && Balanced(t.l) && Balanced(t.r)
  }

  ghost predicate NoRedRed(t: Tree)
  {
    t.T? ==> (t.red ==> !RootRed(t.l) && !RootRed(t.r)) && NoRedRed(t.l) && NoRedRed(t.r)
  }

  /** A red-black tree. */
  ghost predicate RedBlack(t: Tree)
  {
    !RootRed(t) && NoRedRed(t) && Balanced(t)
  }

  /** The context is balanced once its hole is filled with a tree of black height k. */
  ghost predicate BalancedCtx(c: Ctx, k: nat)
  {
    !c.Top? ==> Balanced(c.sib) && Height(c.sib) == k && BalancedCtx(c.up, if c.red then k else k + 1)
  }

  ghost predicate NoRedRedCtx(c: Ctx)
  {
    !c.Top? ==> NoRedRed(c.sib) && (c.red ==> !RootRed(c.sib) && !CtxRed(c.up)) && NoRedRedCtx(c.up)
  }

  /** The root, when it lies in the context, is black. */
  ghost predicate TopBlack(c: Ctx)
  {
    !c.Top? ==> if c.up.Top? then !c.red else TopBlack(c.up)
  }

  /** A context of a red-black tree, with a hole of black height k. */
  ghost predicate GoodCtx(c: Ctx, k: nat)
  {
    BalancedCtx(c, k) && NoRedRedCtx(c) && TopBlack(c)
  }

  lemma {:induction false} PlugGood(c: Ctx, t: Tree)
    requires GoodCtx(c, Height(t)) && Balanced(t) && NoRedRed(t)
    requires RootRed(t) ==> !CtxRed(c)
    ensures Balanced(Plug(c, t)) && NoRedRed(Plug(c, t))
    ensures RootRed(Plug(c, t)) <==> c.Top? && RootRed(t)
  {
    match c
    case Top =>
    case InL(up, n, red, sib) => PlugGood(up, T(t, n, red, sib));
    case InR(up, n, red, sib) => PlugGood(up, T(sib, n, red, t));
  }

  lemma {:induction false} UnplugGood(c: Ctx, t: Tree)
    requires Balanced(Plug(c, t)) && NoRedRed(Plug(c, t)) && !RootRed(Plug(c, t))
    ensures GoodCtx(c, Height(t)) && Balanced(t) && NoRedRed(t)
    ensures RootRed(t) ==> !CtxRed(c) && !c.Top?
  {
    match c
    case Top =>
    case InL(up, n, red, sib) => UnplugGood(up, T(t, n, red, sib));
    case InR(up, n, red, sib) => UnplugGood(up, T(sib, n, red, t));
  }

  // ---------------------------------------------------------------- rotations

  ghost function RotL(t: Tree): Tree
    requires t.T? && t.r.T?
  {
    T(T(t.l, t.n, t.red, t.r.l), t.r.n, t.r.red, t.r.r)
  }

  ghost function RotR(t: Tree): Tree
    requires t.T? && t.l.T?
  {
    T(t.l.l, t.l.n, t.l.red, T(t.l.r, t.n, t.red, t.r))
  }

  ghost function Paint(t: Tree, red: bool): Tree
    requires t.T?
  {
    T(t.l, t.n, red, t.r)
  }

  lemma AssocRot(a: seq<nat>, b: seq<nat>, c: seq<nat>, d: seq<nat>, e: seq<nat>)
    ensures a + b + (c + d + e) == (a + b + c) + d + e
  {
  }

  lemma RotLInorder(t: Tree)
    requires t.T? && t.r.T?
    ensures Inorder(RotL(t)) == Inorder(t) && Ids(RotL(t)) == Ids(t)
  {
    AssocRot(Inorder(t.l), [t.n], Inorder(t.r.l), [t.r.n], Inorder(t.r.r));
  }

  lemma RotRInorder(t: Tree)
    requires t.T? && t.l.T?
    ensures Inorder(RotR(t)) == Inorder(t) && Ids(RotR(t)) == Ids(t)
  {
    AssocRot(Inorder(t.l.l), [t.l.n], Inorder(t.l.r), [t.n], Inorder(t.r));
  }

  lemma PtrInIds(t: Tree)
    ensures t.T? ==> t.n in Ids(t)
  {
  }

  lemma ParInCtx(c: Ctx)
    ensures !c.Top? ==> c.n in CtxIds(c)
    ensures c.Top? ==> CtxIds(c) == {}
  {
  }

  /** What the link at the hole says to code that compares it with its own address. */
  lemma HoleLink(h: Heap, root: nat, c: Ctx, hole: nat)
    requires RepCtx(h, root, c, hole) && DistinctCtx(c) && hole !in CtxIds(c) && hole != NIL
    ensures c.Top? ==> root == hole
    ensures c.InL? ==> c.n < |h| && c.n != NIL && h[c.n].left == hole
    ensures c.InR? ==> c.n < |h| && c.n != NIL && h[c.n].right == hole && h[c.n].left != hole
  {
    if c.InR? {
      RepIds(h, c.n, c.sib);
      if c.sib.T? { assert c.sib.n in Ids(c.sib); }
    }
  }

  // ---------------------------------------------------------------- local changes

  /** Only the nodes in s may differ. */
  ghost predicate Only(h: Heap, h': Heap, s: set<nat>)
  {
    |h'| == |h| && forall n :: 0 <= n < |h| && n !in s ==> h'[n] == h[n]
  }

  lemma TreeKept(h: Heap, h': Heap, s: set<nat>, par: nat, t: Tree)
    requires Only(h, h', s) && Rep(h, par, t) && Distinct(t) && Ids(t) !! s
    ensures Rep(h', par, t)
  {
    RepIds(h, par, t);
    RepFrame(h, h', par, t);
  }

  /** A subtree under a new parent. */
  lemma Reparent(h: Heap, h': Heap, s: set<nat>, par: nat, par': nat, t: Tree)
    requires Only(h, h', s) && Rep(h, par, t) && Distinct(t) && Ids(t) !! s - {Ptr(t)}
    requires t.T? ==> t.n < |h'| && h'[t.n] == h[t.n].(parent := par')
    ensures Rep(h', par', t)
  {
    if t.T? {
      RepIds(h, par, t);
      RepFrame(h, h', t.n, t.l);
      RepFrame(h, h', t.n, t.r);
    }
  }

  /** Redirecting the link at the hole. */
  lemma Relink(h: Heap, h': Heap, s: set<nat>, root: nat, root': nat, c: Ctx, hole: nat, hole': nat)
    requires Only(h, h', s) && RepCtx(h, root, c, hole) && DistinctCtx(c) && CtxIds(c) !! s - {ParOf(c)}
    requires c.Top? ==> root' == hole'
    requires !c.Top? ==> root' == root
    requires c.InL? ==> c.n < |h'| && h'[c.n] == h[c.n].(left := hole')
    requires c.InR? ==> c.n < |h'| && h'[c.n] == h[c.n].(right := hole')
    ensures RepCtx(h', root', c, hole')
  {
    if !c.Top? {
      RepIds(h, c.n, c.sib);
      CtxRepIds(h, root, c.up, c.n);
      RepFrame(h, h', c.n, c.sib);
      CtxFrame(h, h', root, c.up, c.n);
    }
  }

  /** The same tree seen from another node. */
  lemma Refocus(h: Heap, root: nat, c: Ctx, t: Tree, c': Ctx, t': Tree)
    requires At(h, root, c, t) && Plug(c, t) == Plug(c', t')
    ensures At(h, root, c', t')
  {
    hide At, Plug, Holds;
    Zip(h, root, c, t);
    Unzip(h, root, c', t');
  }

  lemma LeafPtr(h: Heap, par: nat, t: Tree)
    requires Rep(h, par, t)
    ensures t.Leaf? <==> Ptr(t) == NIL
  {
  }

  /** What the fields around the focus hold. */
  lemma View(h: Heap, root: nat, c: Ctx, t: Tree)
    requires At(h, root, c, t)
    ensures Ptr(t) != NIL ==> Ptr(t) < |h|
    ensures t.T? ==> t.n != NIL && h[t.n] == Node(ParOf(c), t.red, Ptr(t.l), Ptr(t.r))
    ensures c.Top? ==> root == Ptr(t)
    ensures !c.Top? ==> ParOf(c) != NIL && ParOf(c) < |h| && h[c.n].red == c.red && h[c.n].parent == ParOf(c.up)
    ensures c.InL? ==> h[c.n].left == Ptr(t) && h[c.n].right == Ptr(c.sib) && (c.sib.T? ==> c.sib.n != Ptr(t))
    ensures c.InR? ==> h[c.n].right == Ptr(t) && h[c.n].left == Ptr(c.sib) && (c.sib.T? ==> c.sib.n != Ptr(t))
    ensures t.T? ==> t.n != ParOf(c)
    ensures t.T? ==> (t.l.Leaf? <==> Ptr(t.l) == NIL) && (t.r.Leaf? <==> Ptr(t.r) == NIL)
  {
    if t.T? {
      LeafPtr(h, t.n, t.l);
      LeafPtr(h, t.n, t.r);
    }
    PtrInIds(t);
    ParInCtx(c);
    if !c.Top? {
      PtrInIds(c.sib);
      assert c.sib.T? ==> c.sib.n in CtxIds(c);
      RepIds(h, c.n, c.sib);
    }
  }

  lemma PaintRep(h: Heap, root: nat, c: Ctx, t: Tree, red: bool)
    requires At(h, root, c, t) && t.T?
    ensures t.n < |h| && At(h[t.n := h[t.n].(red := red)], root, c, Paint(t, red))
  {
    hide Rep, Distinct, Ids, RepCtx, DistinctCtx, CtxIds;
    Open(h, ParOf(c), t);
    CtxRepIds(h, root, c, t.n);
    var h' := h[t.n := h[t.n].(red := red)];
    TreeKept(h, h', {t.n}, t.n, t.l);
    TreeKept(h, h', {t.n}, t.n, t.r);
    CtxFrame(h, h', root, c, t.n);
    Close(h', ParOf(c), Paint(t, red));
  }

  ghost function Depth(c: Ctx): nat
  {
    if c.Top? then 0 else 1 + Depth(c.up)
  }

  /** The tree one level above the focus. */
  ghost function Join(c: Ctx, t: Tree): (r: Tree)
    requires !c.Top?
    ensures r.T? && r.n == c.n && r.red == c.red && Plug(c, t) == Plug(c.up, r)
  {
    if c.InL? then T(t, c.n, c.red, c.sib) else T(c.sib, c.n, c.red, t)
  }

  lemma PlugSame(c: Ctx, t: Tree, t': Tree)
    requires Inorder(t) == Inorder(t')
    ensures Inorder(Plug(c, t)) == Inorder(Plug(c, t'))
  {
    InorderPlug(c, t);
    InorderPlug(c, t');
  }

  // ---------------------------------------------------------------- balance, one level at a time

  /** No red-red edge inside, and equal black heights. */
  ghost predicate Fine(t: Tree)
  {
    NoRedRed(t) && Balanced(t)
  }

  lemma OpenFine(t: Tree)
    requires Fine(t)
    ensures t.Leaf? ==> Height(t) == 0
    ensures t.T? ==>
      && Fine(t.l) && Fine(t.r) && Height(t.l) == Height(t.r)
      && Height(t) == Height(t.l) + (if t.red then 0 else 1)
      && (t.red ==> !RootRed(t.l) && !RootRed(t.r))
  {
  }

  lemma MakeFine(l: Tree, n: nat, red: bool, r: Tree)
    requires Fine(l) && Fine(r) && Height(l) == Height(r)
    requires red ==> !RootRed(l) && !RootRed(r)
    ensures Fine(T(l, n, red, r)) && Height(T(l, n, red, r)) == Height(l) + (if red then 0 else 1)
  {
  }

  lemma OpenCtx(c: Ctx, k: nat)
    requires GoodCtx(c, k)
    ensures !c.Top? ==>
      && Fine(c.sib) && Height(c.sib) == k && GoodCtx(c.up, if c.red then k else k + 1)
      && (c.red ==> !RootRed(c.sib) && !CtxRed(c.up) && !c.up.Top?)
  {
  }

  lemma MakeCtx(c: Ctx, k: nat)
    requires c.Top? || (Fine(c.sib) && Height(c.sib) == k && GoodCtx(c.up, if c.red then k else k + 1))
    requires CtxRed(c) ==> !RootRed(c.sib) && !CtxRed(c.up) && !c.up.Top?
    ensures GoodCtx(c, k)
  {
  }

  // ---------------------------------------------------------------- insertion

  /** Insertion in progress: only the edge between the focus and its parent may join two red nodes. */
  ghost predicate Pending(c: Ctx, t: Tree)
  {
    RootRed(t) && Fine(t) && GoodCtx(c, Height(t))
  }

  /** The grandparent's subtree after its two red children have been painted black. */
  ghost function Recolored(c: Ctx, t: Tree): Tree
    requires !c.Top? && !c.up.Top? && c.up.sib.T?
  {
    Paint(Join(WithSib(c.up, Paint(c.up.sib, false)), Paint(Join(c, t), false)), true)
  }

  lemma RecoloredGood(c: Ctx, t: Tree)
    requires Pending(c, t) && CtxRed(c) && !c.up.Top? && RootRed(c.up.sib)
    ensures Pending(c.up.up, Recolored(c, t))
    ensures Inorder(Plug(c.up.up, Recolored(c, t))) == Inorder(Plug(c, t))
  {
    hide Fine, GoodCtx, Height, Plug;
    var g := c.up;
    OpenFine(t);
    OpenCtx(c, Height(t));
    OpenCtx(g, Height(t));
    OpenFine(g.sib);
    var p, u := Paint(Join(c, t), false), Paint(g.sib, false);
    MakeFine(p.l, p.n, false, p.r);
    MakeFine(u.l, u.n, false, u.r);
    if g.InL? { MakeFine(p, g.n, true, u); } else { MakeFine(u, g.n, true, p); }
    PaintInorder(c, t);
    PlugSame(g.up, Recolored(c, t), Join(g, Join(c, t)));
  }

  lemma PaintInorder(c: Ctx, t: Tree)
    requires !c.Top? && !c.up.Top? && c.up.sib.T?
    ensures Inorder(Recolored(c, t)) == Inorder(Join(c.up, Join(c, t)))
  {
  }

  /** The outer case, grandparent's left: after painting and rotating, the parent heads the subtree. */
  lemma RotatedGoodL(gup: Ctx, t: Tree, p: nat, s: Tree, g: nat, u: Tree)
    requires Pending(InL(InL(gup, g, false, u), p, true, s), t) && !RootRed(u)
    ensures var c' := InL(gup, p, false, T(s, g, true, u));
      && Pending(c', t)
      && RotR(T(T(t, p, false, s), g, true, u)) == Join(c', t)
      && Inorder(Plug(c', t)) == Inorder(Plug(InL(InL(gup, g, false, u), p, true, s), t))
  {
    hide Fine, GoodCtx, Height;
    var k := Height(t);
    OpenCtx(InL(InL(gup, g, false, u), p, true, s), k);
    OpenCtx(InL(gup, g, false, u), k);
    MakeFine(s, g, true, u);
    var c' := InL(gup, p, false, T(s, g, true, u));
    MakeCtx(c', k);
    var big := T(T(t, p, false, s), g, true, u);
    RotRInorder(big);
    assert Inorder(big) == Inorder(T(T(t, p, true, s), g, false, u));
    PlugSame(gup, Join(c', t), T(T(t, p, true, s), g, false, u));
  }

  lemma RotatedGoodR(gup: Ctx, t: Tree, p: nat, s: Tree, g: nat, u: Tree)
    requires Pending(InR(InR(gup, g, false, u), p, true, s), t) && !RootRed(u)
    ensures var c' := InR(gup, p, false, T(u, g, true, s));
      && Pending(c', t)
      && RotL(T(u, g, true, T(s, p, false, t))) == Join(c', t)
      && Inorder(Plug(c', t)) == Inorder(Plug(InR(InR(gup, g, false, u), p, true, s), t))
  {
    hide Fine, GoodCtx, Height;
    var k := Height(t);
    OpenCtx(InR(InR(gup, g, false, u), p, true, s), k);
    OpenCtx(InR(gup, g, false, u), k);
    MakeFine(u, g, true, s);
    var c' := InR(gup, p, false, T(u, g, true, s));
    MakeCtx(c', k);
    var big := T(u, g, true, T(s, p, false, t));
    RotLInorder(big);
    assert Inorder(big) == Inorder(T(u, g, false, T(s, p, true, t)));
    PlugSame(gup, Join(c', t), T(u, g, false, T(s, p, true, t)));
  }

  /** The inner case: rotating the parent turns it into the outer one, with node and parent swapped. */
  lemma InnerGoodL(up: Ctx, t: Tree, p: nat, s: Tree)
    requires Pending(InR(up, p, true, s), t)
    ensures var c', t' := InL(up, t.n, true, t.r), T(s, p, true, t.l);
      && Pending(c', t') && RotL(T(s, p, true, t)) == Join(c', t')
      && Inorder(Plug(c', t')) == Inorder(Plug(InR(up, p, true, s), t))
  {
    hide Fine, GoodCtx, Height;
    OpenFine(t);
    OpenCtx(InR(up, p, true, s), Height(t));
    MakeFine(s, p, true, t.l);
    var c', t' := InL(up, t.n, true, t.r), T(s, p, true, t.l);
    MakeCtx(c', Height(t'));
    RotLInorder(T(s, p, true, t));
    PlugSame(up, Join(c', t'), T(s, p, true, t));
  }

  lemma InnerGoodR(up: Ctx, t: Tree, p: nat, s: Tree)
    requires Pending(InL(up, p, true, s), t)
    ensures var c', t' := InR(up, t.n, true, t.l), T(t.r, p, true, s);
      && Pending(c', t') && RotR(T(t, p, true, s)) == Join(c', t')
      && Inorder(Plug(c', t')) == Inorder(Plug(InL(up, p, true, s), t))
  {
    hide Fine, GoodCtx, Height;
    OpenFine(t);
    OpenCtx(InL(up, p, true, s), Height(t));
    MakeFine(t.r, p, true, s);
    var c', t' := InR(up, t.n, true, t.l), T(t.r, p, true, s);
    MakeCtx(c', Height(t'));
    RotRInorder(T(t, p, true, s));
    PlugSame(up, Join(c', t'), T(t, p, true, s));
  }

  /** The sibling of the focus, as its fields show it. */
  lemma SibView(h: Heap, root: nat, c: Ctx, t: Tree)
    requires At(h, root, c, t) && !c.Top?
    ensures c.sib.T? ==> c.sib.n != NIL && c.sib.n < |h|
    ensures c.sib.T? ==> h[c.sib.n] == Node(c.n, c.sib.red, Ptr(c.sib.l), Ptr(c.sib.r))
  {
  }

  /** The end of insertion: with the root painted black the tree is red-black. */
  lemma InsertDone(c: Ctx, t: Tree)
    requires Pending(c, t) && !CtxRed(c)
    ensures Plug(c, t).T? && RedBlack(Paint(Plug(c, t), false))
    ensures Inorder(Paint(Plug(c, t), false)) == Inorder(Plug(c, t))
  {
    PlugGood(c, t);
    PlugT(c, t);
  }

  lemma {:induction false} PlugT(c: Ctx, t: Tree)
    requires t.T?
    ensures Plug(c, t).T?
  {
    if !c.Top? { PlugT(c.up, Join(c, t)); }
  }

  /** A new red leaf at an empty link of a red-black tree. */
  lemma LeafPending(c: Ctx, n: nat)
    requires RedBlack(Plug(c, Leaf))
    ensures Pending(c, T(Leaf, n, true, Leaf))
    ensures Inorder(Plug(c, Leaf)) == Before(c) + After(c)
    ensures Inorder(Plug(c, T(Leaf, n, true, Leaf))) == Before(c) + [n] + After(c)
  {
    UnplugGood(c, Leaf);
    InorderPlug(c, Leaf);
    InorderPlug(c, T(Leaf, n, true, Leaf));
    assert Inorder(T(Leaf, n, true, Leaf)) == [n];
  }

  lemma LinkRep(h: Heap, h': Heap, root: nat, root': nat, c: Ctx, n: nat)
    requires At(h, root, c, Leaf) && n !in CtxIds(c) && n != NIL && n < |h|
    requires Only(h, h', {n, ParOf(c)}) && n < |h'| && h'[n] == Node(ParOf(c), true, NIL, NIL)
    requires c.Top? ==> root' == n
    requires !c.Top? ==> root' == root
    requires c.InL? ==> c.n < |h'| && h'[c.n] == h[c.n].(left := n)
    requires c.InR? ==> c.n < |h'| && h'[c.n] == h[c.n].(right := n)
    ensures At(h', root', c, T(Leaf, n, true, Leaf))
  {
    Relink(h, h', {n, ParOf(c)}, root, root', c, NIL, n);
  }

  /** The context with another sibling. */
  ghost function WithSib(c: Ctx, s: Tree): Ctx
    requires !c.Top?
  {
    if c.InL? then InL(c.up, c.n, c.red, s) else InR(c.up, c.n, c.red, s)
  }

  /** The context of the sibling of the focus. */
  ghost function Flip(c: Ctx, t: Tree): Ctx
    requires !c.Top?
  {
    if c.InL? then InR(c.up, c.n, c.red, t) else InL(c.up, c.n, c.red, t)
  }

  lemma FlipPlug(c: Ctx, t: Tree, s: Tree)
    requires !c.Top?
    ensures Plug(Flip(c, t), s) == Plug(WithSib(c, s), t)
  {
  }

  lemma DownL(c: Ctx, t: Tree)
    requires t.T?
    ensures Plug(c, t) == Plug(InL(c, t.n, t.red, t.r), t.l)
  {
  }

  lemma DownR(c: Ctx, t: Tree)
    requires t.T?
    ensures Plug(c, t) == Plug(InR(c, t.n, t.red, t.l), t.r)
  {
  }

  /** The children of the sibling. */
  lemma NephewView(h: Heap, root: nat, c: Ctx, t: Tree)
    requires At(h, root, c, t) && !c.Top? && c.sib.T?
    ensures c.sib.l.T? ==> c.sib.l.n != NIL && c.sib.l.n < |h| && h[c.sib.l.n].red == c.sib.l.red
    ensures c.sib.r.T? ==> c.sib.r.n != NIL && c.sib.r.n < |h| && h[c.sib.r.n].red == c.sib.r.red
  {
    hide Rep, Ids, Distinct;
    Open(h, c.n, c.sib);
    Open(h, c.sib.n, c.sib.l);
    Open(h, c.sib.n, c.sib.r);
  }

  lemma {:induction false} RootInCtx(h: Heap, root: nat, c: Ctx, hole: nat)
    requires RepCtx(h, root, c, hole)
    ensures !c.Top? ==> root in CtxIds(c) && root != NIL
  {
    if !c.Top? { RootInCtx(h, root, c.up, c.n); }
  }

  /** `node == root->rb_node` holds exactly at the top. */
  lemma AtRoot(h: Heap, root: nat, c: Ctx, t: Tree)
    requires At(h, root, c, t)
    ensures Ptr(t) == root <==> c.Top?
  {
    RootInCtx(h, root, c, Ptr(t));
    PtrInIds(t);
  }
}
