/** kernel/libk/rbtree.c: rotations, insertion and deletion on linked nodes. Nodes are addresses in a
    heap of `rb_node` records that every assignment updates in place. */
module RbTrees {
  import opened RbZipper
  import opened RbErase
  import opened RbSplice

  /** The heap after rotating t to the left at context c. */
  ghost predicate RotatedLeft(h: Heap, h': Heap, root: nat, root': nat, c: Ctx, t: Tree)
    requires t.T? && t.r.T?
  {
    && t.n < |h'| && t.r.n < |h'|
    && h'[t.n] == Node(t.r.n, t.red, Ptr(t.l), Ptr(t.r.l))
    && h'[t.r.n] == Node(ParOf(c), t.r.red, t.n, Ptr(t.r.r))
    && (t.r.l.T? ==> t.r.l.n < |h| && t.r.l.n < |h'| && h'[t.r.l.n] == h[t.r.l.n].(parent := t.n))
    && (c.InL? ==> c.n < |h| && c.n < |h'| && h'[c.n] == h[c.n].(left := t.r.n))
    && (c.InR? ==> c.n < |h| && c.n < |h'| && h'[c.n] == h[c.n].(right := t.r.n))
    && root' == (if c.Top? then t.r.n else root)
    && Only(h, h', {t.n, t.r.n, Ptr(t.r.l), ParOf(c)})
  }

  lemma RotLRep(h: Heap, h': Heap, root: nat, root': nat, c: Ctx, t: Tree)
    requires At(h, root, c, t) && t.T? && t.r.T? && RotatedLeft(h, h', root, root', c, t)
    ensures At(h', root', c, RotL(t)) && Ids(RotL(t)) == Ids(t)
  {
    hide Rep, Distinct, Ids, RepCtx, DistinctCtx, CtxIds, Only;
    var b := t.r.l;
    CtxRepIds(h, root, c, t.n);
    Open(h, ParOf(c), t);
    Open(h, t.n, t.r);
    Open(h, t.r.n, b);
    ParInCtx(c);
    var s := {t.n, t.r.n, Ptr(b), ParOf(c)};
    PtrInIds(b);
    Relink(h, h', s, root, root', c, t.n, t.r.n);
    TreeKept(h, h', s, t.n, t.l);
    TreeKept(h, h', s, t.r.n, t.r.r);
    Reparent(h, h', s, t.r.n, t.n, b);
    Close(h', t.r.n, T(t.l, t.n, t.red, b));
    Close(h', ParOf(c), RotL(t));
  }

  /** The heap after rotating t to the right at context c. */
  ghost predicate RotatedRight(h: Heap, h': Heap, root: nat, root': nat, c: Ctx, t: Tree)
    requires t.T? && t.l.T?
  {
    && t.n < |h'| && t.l.n < |h'|
    && h'[t.n] == Node(t.l.n, t.red, Ptr(t.l.r), Ptr(t.r))
    && h'[t.l.n] == Node(ParOf(c), t.l.red, Ptr(t.l.l), t.n)
    && (t.l.r.T? ==> t.l.r.n < |h| && t.l.r.n < |h'| && h'[t.l.r.n] == h[t.l.r.n].(parent := t.n))
    && (c.InL? ==> c.n < |h| && c.n < |h'| && h'[c.n] == h[c.n].(left := t.l.n))
    && (c.InR? ==> c.n < |h| && c.n < |h'| && h'[c.n] == h[c.n].(right := t.l.n))
    && root' == (if c.Top? then t.l.n else root)
    && Only(h, h', {t.n, t.l.n, Ptr(t.l.r), ParOf(c)})
  }

  lemma RotRRep(h: Heap, h': Heap, root: nat, root': nat, c: Ctx, t: Tree)
    requires At(h, root, c, t) && t.T? && t.l.T? && RotatedRight(h, h', root, root', c, t)
    ensures At(h', root', c, RotR(t)) && Ids(RotR(t)) == Ids(t)
  {
    hide Rep, Distinct, Ids, RepCtx, DistinctCtx, CtxIds, Only;
    var b := t.l.r;
    CtxRepIds(h, root, c, t.n);
    Open(h, ParOf(c), t);
    Open(h, t.n, t.l);
    Open(h, t.l.n, b);
    ParInCtx(c);
    var s := {t.n, t.l.n, Ptr(b), ParOf(c)};
    PtrInIds(b);
    Relink(h, h', s, root, root', c, t.n, t.l.n);
    TreeKept(h, h', s, t.n, t.r);
    TreeKept(h, h', s, t.l.n, t.l.l);
    Reparent(h, h', s, t.l.n, t.n, b);
    Close(h', t.l.n, T(b, t.n, t.red, t.r));
    Close(h', ParOf(c), RotR(t));
  }

  class RbTree {
    var h: Heap
    var root: nat

    /** An empty tree (RB_ROOT) over a memory of `size` node records. */
    constructor (size: nat)
      ensures Holds(h, root, Leaf) && |h| == size
    {
      h := seq(size, _ => Node(NIL, false, NIL, NIL));
      root := NIL;
    }

    method SetLeft(n: nat, x: nat)
      requires n < |h|
      modifies this`h
      ensures h == old(h)[n := old(h)[n].(left := x)]
    {
      h := h[n := h[n].(left := x)];
    }

    method SetRight(n: nat, x: nat)
      requires n < |h|
      modifies this`h
      ensures h == old(h)[n := old(h)[n].(right := x)]
    {
      h := h[n := h[n].(right := x)];
    }

    method SetParent(n: nat, x: nat)
      requires n < |h|
      modifies this`h
      ensures h == old(h)[n := old(h)[n].(parent := x)]
    {
      h := h[n := h[n].(parent := x)];
    }

    /** The link from `parent` (or the root) to `node` now holds `other`. */
    method ReplaceChild(parent: nat, node: nat, other: nat)
      requires parent != NIL ==> parent < |h|
      modifies this
      ensures parent == NIL ==> h == old(h) && root == other
      ensures parent != NIL ==> root == old(root) && h == old(h)[parent :=
        if node == old(h)[parent].left then old(h)[parent].(left := other) else old(h)[parent].(right := other)]
    {
      if parent != NIL {
        if node == h[parent].left {
          SetLeft(parent, other);
        } else {
          SetRight(parent, other);
        }
      } else {
        root := other;
      }
    }

    /** The first half of `__rb_rotate_left`: the links between node, its right child and the grandchild. */
    method LowerLeft(node: nat, right: nat, b: nat, parent: nat)
      requires node < |h| && right < |h| && b < |h|
      requires node != right && b != node && b != right && h[right].left == b
      modifies this`h
      ensures |h| == |old(h)|
      ensures h[node] == old(h)[node].(right := b)
      ensures h[right] == old(h)[right].(left := node, parent := parent)
      ensures b != NIL ==> h[b] == old(h)[b].(parent := node)
      ensures Only(old(h), h, {node, right, b})
    {
      SetRight(node, h[right].left);
      if h[right].left != NIL {
        SetParent(h[right].left, node);
      }
      SetLeft(right, node);
      SetParent(right, parent);
    }

    /** `__rb_rotate_left` */
    method RotateLeft(node: nat, ghost c: Ctx, ghost t: Tree)
      requires At(h, root, c, t) && t.T? && t.n == node && t.r.T?
      modifies this
      ensures At(h, root, c, RotL(t)) && |h| == |old(h)|
    {
      RotLView(h, root, c, t);
      hide At, RotL, Ptr, ParOf;
      var right := h[node].right;
      var parent := h[node].parent;
      LowerLeft(node, right, h[right].left, parent);
      ReplaceChild(parent, node, right);
      SetParent(node, right);
      RotLRep(old(h), h, old(root), root, c, t);
    }

    /** The first half of `__rb_rotate_right`: the links between node, its left child and the grandchild. */
    method LowerRight(node: nat, left: nat, b: nat, parent: nat)
      requires node < |h| && left < |h| && b < |h|
      requires node != left && b != node && b != left && h[left].right == b
      modifies this`h
      ensures |h| == |old(h)|
      ensures h[node] == old(h)[node].(left := b)
      ensures h[left] == old(h)[left].(right := node, parent := parent)
      ensures b != NIL ==> h[b] == old(h)[b].(parent := node)
      ensures Only(old(h), h, {node, left, b})
    {
      SetLeft(node, h[left].right);
      if h[left].right != NIL {
        SetParent(h[left].right, node);
      }
      SetRight(left, node);
      SetParent(left, parent);
    }

    /** `__rb_rotate_right` */
    method RotateRight(node: nat, ghost c: Ctx, ghost t: Tree)
      requires At(h, root, c, t) && t.T? && t.n == node && t.l.T?
      modifies this
      ensures At(h, root, c, RotR(t)) && |h| == |old(h)|
    {
      RotRView(h, root, c, t);
      hide At, RotR, Ptr, ParOf;
      var left := h[node].left;
      var parent := h[node].parent;
      LowerRight(node, left, h[left].right, parent);
      ReplaceChild(parent, node, left);
      SetParent(node, left);
      RotRRep(old(h), h, old(root), root, c, t);
    }

    /** `rb_set_black`, `rb_set_red`, `rb_set_color` */
    method SetColor(n: nat, red: bool, ghost c: Ctx, ghost t: Tree)
      requires At(h, root, c, t) && t.T? && t.n == n
      modifies this`h
      ensures At(h, root, c, Paint(t, red)) && |h| == |old(h)|
    {
      PaintRep(h, root, c, t, red);
      h := h[n := h[n].(red := red)];
    }

    /** Both children of the grandparent are red: paint them black and go on from the grandparent. */
    method Recolor(parent: nat, uncle: nat, gparent: nat, ghost c: Ctx, ghost t: Tree)
      requires At(h, root, c, t) && !c.Top? && !c.up.Top? && c.up.sib.T?
      requires parent == c.n && gparent == c.up.n && uncle == c.up.sib.n
      modifies this`h
      ensures At(h, root, c.up.up, Recolored(c, t)) && |h| == |old(h)|
    {
      hide At, Plug;
      ghost var g, p, u := c.up, Join(c, t), c.up.sib;
      ghost var gu := if g.InL? then InR(g.up, g.n, g.red, p) else InL(g.up, g.n, g.red, p);
      assert Join(gu, u) == Join(g, p);
      Refocus(h, root, c, t, gu, u);
      SetColor(uncle, false, gu, u);
      ghost var u' := Paint(u, false);
      assert Join(gu, u') == Join(WithSib(g, u'), p);
      Refocus(h, root, gu, u', WithSib(g, u'), p);
      SetColor(parent, false, WithSib(g, u'), p);
      ghost var p' := Paint(p, false);
      Refocus(h, root, WithSib(g, u'), p', g.up, Join(WithSib(g, u'), p'));
      SetColor(gparent, true, g.up, Join(WithSib(g, u'), p'));
    }

    /** The rotations of `rb_insert_color` when the parent is a left child and the uncle is not red. */
    method InsertRotateLeftSide(node0: nat, parent0: nat, gparent: nat, ghost c0: Ctx, ghost t0: Tree)
      returns (node: nat, ghost c: Ctx, ghost t: Tree)
      requires At(h, root, c0, t0) && Pending(c0, t0) && CtxRed(c0) && c0.up.InL? && !RootRed(c0.up.sib)
      requires node0 == t0.n && parent0 == c0.n && gparent == c0.up.n
      modifies this
      ensures At(h, root, c, t) && Pending(c, t) && t.n == node && !CtxRed(c) && |h| == |old(h)|
      ensures Inorder(Plug(c, t)) == Inorder(Plug(c0, t0))
    {
      ghost var up := c0.up;
      OpenCtx(c0, Height(t0));
      View(h, root, c0, t0);
      hide At, Pending, Inorder;
      node := node0;
      var parent := parent0;
      c, t := c0, t0;
      if h[parent].right == node {
        ghost var p := Join(c, t);
        InnerGoodL(up, t, c.n, c.sib);
        Refocus(h, root, c, t, up, p);
        RotateLeft(parent, up, p);
        node, parent := parent, node;
        c, t := InL(up, t0.n, true, t0.r), T(c0.sib, c0.n, true, t0.l);
        Refocus(h, root, up, RotL(p), c, t);
      }
      ghost var p := Join(c, t);
      RotatedGoodL(up.up, t, c.n, c.sib, up.n, up.sib);
      Refocus(h, root, c, t, up, p);
      SetColor(parent, false, up, p);
      ghost var g := Join(up, Paint(p, false));
      Refocus(h, root, up, Paint(p, false), up.up, g);
      SetColor(gparent, true, up.up, g);
      RotateRight(gparent, up.up, Paint(g, true));
      ghost var c' := InL(up.up, c.n, false, T(c.sib, up.n, true, up.sib));
      Refocus(h, root, up.up, Join(c', t), c', t);
      c := c';
    }

    /** The mirror image. */
    method InsertRotateRightSide(node0: nat, parent0: nat, gparent: nat, ghost c0: Ctx, ghost t0: Tree)
      returns (node: nat, ghost c: Ctx, ghost t: Tree)
      requires At(h, root, c0, t0) && Pending(c0, t0) && CtxRed(c0) && c0.up.InR? && !RootRed(c0.up.sib)
      requires node0 == t0.n && parent0 == c0.n && gparent == c0.up.n
      modifies this
      ensures At(h, root, c, t) && Pending(c, t) && t.n == node && !CtxRed(c) && |h| == |old(h)|
      ensures Inorder(Plug(c, t)) == Inorder(Plug(c0, t0))
    {
      ghost var up := c0.up;
      OpenCtx(c0, Height(t0));
      View(h, root, c0, t0);
      hide At, Pending, Inorder;
      node := node0;
      var parent := parent0;
      c, t := c0, t0;
      if h[parent].left == node {
        ghost var p := Join(c, t);
        InnerGoodR(up, t, c.n, c.sib);
        Refocus(h, root, c, t, up, p);
        RotateRight(parent, up, p);
        node, parent := parent, node;
        c, t := InR(up, t0.n, true, t0.l), T(t0.r, c0.n, true, c0.sib);
        Refocus(h, root, up, RotR(p), c, t);
      }
      ghost var p := Join(c, t);
      RotatedGoodR(up.up, t, c.n, c.sib, up.n, up.sib);
      Refocus(h, root, c, t, up, p);
      SetColor(parent, false, up, p);
      ghost var g := Join(up, Paint(p, false));
      Refocus(h, root, up, Paint(p, false), up.up, g);
      SetColor(gparent, true, up.up, g);
      RotateLeft(gparent, up.up, Paint(g, true));
      ghost var c' := InR(up.up, c.n, false, T(up.sib, up.n, true, c.sib));
      Refocus(h, root, up.up, Join(c', t), c', t);
      c := c';
    }

    /** `rb_insert_color`, from a red node whose subtree is fine and whose parent may be red. */
    method InsertColor(newNode: nat, ghost c0: Ctx, ghost t0: Tree) returns (ghost tree: Tree)
      requires At(h, root, c0, t0) && Pending(c0, t0) && t0.n == newNode
      modifies this
      ensures Holds(h, root, tree) && RedBlack(tree) && |h| == |old(h)|
      ensures Inorder(tree) == Inorder(Plug(c0, t0))
    {
      hide At, Inorder, GoodCtx, Fine, Plug, Height;
      var node := newNode;
      ghost var c, t := c0, t0;
      View(h, root, c, t);
      while h[node].parent != NIL && h[h[node].parent].red
        invariant |h| == |old(h)|
        invariant At(h, root, c, t) && Pending(c, t) && t.n == node
        invariant node < |h| && h[node].parent == ParOf(c) < |h| && (!c.Top? ==> c.n != NIL && h[c.n].red == c.red)
        invariant Inorder(Plug(c, t)) == Inorder(Plug(c0, t0))
        decreases if CtxRed(c) then Depth(c) else 0
      {
        View(h, root, c, t);
        OpenCtx(c, Height(t));
        var parent := h[node].parent;
        var gparent := h[parent].parent;
        ghost var p := Join(c, t);
        Refocus(h, root, c, t, c.up, p);
        View(h, root, c.up, p);
        SibView(h, root, c.up, p);
        var uncle := if parent == h[gparent].left then h[gparent].right else h[gparent].left;
        if uncle != NIL && h[uncle].red {
          RecoloredGood(c, t);
          assert Depth(c) == 2 + Depth(c.up.up);
          Recolor(parent, uncle, gparent, c, t);
          node := gparent;
          c, t := c.up.up, Recolored(c, t);
        } else if parent == h[gparent].left {
          node, c, t := InsertRotateLeftSide(node, parent, gparent, c, t);
        } else {
          node, c, t := InsertRotateRightSide(node, parent, gparent, c, t);
        }
        View(h, root, c, t);
      }
      InsertDone(c, t);
      ghost var whole := Plug(c, t);
      assert Plug(Top, whole) == whole by { TopPlug(whole); }
      Refocus(h, root, c, t, Top, whole);
      View(h, root, Top, whole);
      SetColor(root, false, Top, whole);
      tree := Paint(whole, false);
      TopHolds(h, root, tree);
    }

    /** `rb_link_node`: hangs a red leaf on the empty link at context c. */
    method LinkNode(node: nat, parent: nat, left: bool, ghost c: Ctx)
      requires At(h, root, c, Leaf) && node !in CtxIds(c) && node != NIL && node < |h|
      requires parent == ParOf(c) && (left <==> c.InL?)
      modifies this
      ensures At(h, root, c, T(Leaf, node, true, Leaf)) && |h| == |old(h)|
    {
      View(h, root, c, Leaf);
      ParInCtx(c);
      hide At;
      h := h[node := Node(parent, true, NIL, NIL)];
      if parent == NIL {
        root := node;
      } else if left {
        SetLeft(parent, node);
      } else {
        SetRight(parent, node);
      }
      LinkRep(old(h), h, old(root), root, c, node);
    }

    /** `__vma_link_rb`: `rb_link_node` then `rb_insert_color`. The in-order sequence gains the node at the
        place of the link, and the tree stays red-black. */
    method Insert(node: nat, parent: nat, left: bool, ghost c: Ctx) returns (ghost tree: Tree)
      requires Holds(h, root, Plug(c, Leaf)) && RedBlack(Plug(c, Leaf))
      requires node !in Ids(Plug(c, Leaf)) && node != NIL && node < |h|
      requires parent == ParOf(c) && (left <==> c.InL?)
      modifies this
      ensures Holds(h, root, tree) && RedBlack(tree) && |h| == |old(h)|
      ensures Inorder(Plug(c, Leaf)) == Before(c) + After(c)
      ensures Inorder(tree) == Before(c) + [node] + After(c)
    {
      Unzip(h, root, c, Leaf);
      Zip(h, root, c, Leaf);
      LeafPending(c, node);
      hide At, Holds, RedBlack, Pending, Inorder;
      LinkNode(node, parent, left, c);
      tree := InsertColor(node, c, T(Leaf, node, true, Leaf));
    }

    /** Paints the sibling of the focus. */
    method PaintSibling(other: nat, red: bool, ghost c: Ctx, ghost t: Tree)
      requires At(h, root, c, t) && !c.Top? && c.sib.T? && c.sib.n == other
      modifies this`h
      ensures At(h, root, WithSib(c, Paint(c.sib, red)), t) && |h| == |old(h)|
    {
      hide At;
      ghost var f := Flip(c, t);
      Refocus(h, root, c, t, f, c.sib);
      SetColor(other, red, f, c.sib);
      Refocus(h, root, f, Paint(c.sib, red), WithSib(c, Paint(c.sib, red)), t);
    }

    /** `__rb_erase_color`, red sibling on the right: rotate it above the parent. */
    method RedSiblingRight(parent: nat, other: nat, ghost c: Ctx, ghost t: Tree) returns (ghost c': Ctx)
      requires At(h, root, c, t) && Short(c, t) && c.InL? && RootRed(c.sib)
      requires parent == c.n && other == c.sib.n
      modifies this
      ensures c' == InL(InL(c.up, c.sib.n, false, c.sib.r), c.n, true, c.sib.l)
      ensures At(h, root, c', t) && Short(c', t) && c'.sib.T? && !c'.sib.red && |h| == |old(h)|
      ensures Inorder(Plug(c', t)) == Inorder(Plug(c, t))
    {
      ghost var up, o := c.up, c.sib;
      RedSiblingL(up, t, c.n, c.red, o);
      hide At, Short, Inorder;
      PaintSibling(other, false, c, t);
      ghost var c1 := WithSib(c, Paint(o, false));
      Refocus(h, root, c1, t, up, Join(c1, t));
      SetColor(parent, true, up, Join(c1, t));
      RotateLeft(parent, up, T(t, c.n, true, Paint(o, false)));
      c' := InL(InL(up, o.n, false, o.r), c.n, true, o.l);
      Refocus(h, root, up, Join(c'.up, Join(c', t)), c', t);
    }

    method RedSiblingLeft(parent: nat, other: nat, ghost c: Ctx, ghost t: Tree) returns (ghost c': Ctx)
      requires At(h, root, c, t) && Short(c, t) && c.InR? && RootRed(c.sib)
      requires parent == c.n && other == c.sib.n
      modifies this
      ensures c' == InR(InR(c.up, c.sib.n, false, c.sib.l), c.n, true, c.sib.r)
      ensures At(h, root, c', t) && Short(c', t) && c'.sib.T? && !c'.sib.red && |h| == |old(h)|
      ensures Inorder(Plug(c', t)) == Inorder(Plug(c, t))
    {
      ghost var up, o := c.up, c.sib;
      RedSiblingR(up, t, c.n, c.red, o);
      hide At, Short, Inorder;
      PaintSibling(other, false, c, t);
      ghost var c1 := WithSib(c, Paint(o, false));
      Refocus(h, root, c1, t, up, Join(c1, t));
      SetColor(parent, true, up, Join(c1, t));
      RotateRight(parent, up, T(Paint(o, false), c.n, true, t));
      c' := InR(InR(up, o.n, false, o.l), c.n, true, o.r);
      Refocus(h, root, up, Join(c'.up, Join(c', t)), c', t);
    }

    /** The near child of the black sibling on the right is red and the far one is not: rotate the sibling. */
    method NearRotateRight(other: nat, near: nat, ghost c: Ctx, ghost t: Tree)
      requires At(h, root, c, t) && c.InL? && c.sib.T? && c.sib.l.T?
      requires other == c.sib.n && near == c.sib.l.n
      modifies this
      ensures At(h, root, WithSib(c, NearL(c.sib)), t) && |h| == |old(h)|
    {
      hide At, Plug;
      ghost var o, f := c.sib, Flip(c, t);
      ghost var o1 := T(Paint(o.l, false), o.n, o.red, o.r);
      FlipPlug(c, t, o);
      DownL(f, o);
      Refocus(h, root, c, t, InL(f, o.n, o.red, o.r), o.l);
      SetColor(near, false, InL(f, o.n, o.red, o.r), o.l);
      DownL(f, o1);
      Refocus(h, root, InL(f, o.n, o.red, o.r), Paint(o.l, false), f, o1);
      SetColor(other, true, f, o1);
      RotateRight(other, f, Paint(o1, true));
      FlipPlug(c, t, NearL(o));
      Refocus(h, root, f, NearL(o), WithSib(c, NearL(o)), t);
    }

    method NearRotateLeft(other: nat, near: nat, ghost c: Ctx, ghost t: Tree)
      requires At(h, root, c, t) && c.InR? && c.sib.T? && c.sib.r.T?
      requires other == c.sib.n && near == c.sib.r.n
      modifies this
      ensures At(h, root, WithSib(c, NearR(c.sib)), t) && |h| == |old(h)|
    {
      hide At, Plug;
      ghost var o, f := c.sib, Flip(c, t);
      ghost var o1 := T(o.l, o.n, o.red, Paint(o.r, false));
      FlipPlug(c, t, o);
      DownR(f, o);
      Refocus(h, root, c, t, InR(f, o.n, o.red, o.l), o.r);
      SetColor(near, false, InR(f, o.n, o.red, o.l), o.r);
      DownR(f, o1);
      Refocus(h, root, InR(f, o.n, o.red, o.l), Paint(o.r, false), f, o1);
      SetColor(other, true, f, o1);
      RotateLeft(other, f, Paint(o1, true));
      FlipPlug(c, t, NearR(o));
      Refocus(h, root, f, NearR(o), WithSib(c, NearR(o)), t);
    }

    /** The far child of the sibling on the right is red: recolour and rotate the parent. */
    method FarRotateRight(parent: nat, other: nat, far: nat, ghost c: Ctx, ghost t: Tree)
      requires At(h, root, c, t) && c.InL? && c.sib.T? && c.sib.r.T?
      requires parent == c.n && other == c.sib.n && far == c.sib.r.n
      modifies this
      ensures At(h, root, c.up, FarL(t, c.n, c.red, c.sib)) && |h| == |old(h)|
    {
      View(h, root, c, t);
      hide At, Plug;
      ghost var up, o := c.up, c.sib;
      PaintSibling(other, h[parent].red, c, t);
      ghost var c1 := WithSib(c, Paint(o, c.red));
      Refocus(h, root, c1, t, up, Join(c1, t));
      SetColor(parent, false, up, Join(c1, t));
      ghost var p1 := T(t, c.n, false, Paint(o, c.red));
      ghost var d := InR(up, c.n, false, t);
      DownR(up, p1);
      DownR(d, Paint(o, c.red));
      Refocus(h, root, up, p1, InR(d, o.n, c.red, o.l), o.r);
      SetColor(far, false, InR(d, o.n, c.red, o.l), o.r);
      ghost var o2 := T(o.l, o.n, c.red, Paint(o.r, false));
      DownR(d, o2);
      DownR(up, T(t, c.n, false, o2));
      Refocus(h, root, InR(d, o.n, c.red, o.l), Paint(o.r, false), up, T(t, c.n, false, o2));
      RotateLeft(parent, up, T(t, c.n, false, o2));
    }

    method FarRotateLeft(parent: nat, other: nat, far: nat, ghost c: Ctx, ghost t: Tree)
      requires At(h, root, c, t) && c.InR? && c.sib.T? && c.sib.l.T?
      requires parent == c.n && other == c.sib.n && far == c.sib.l.n
      modifies this
      ensures At(h, root, c.up, FarR(t, c.n, c.red, c.sib)) && |h| == |old(h)|
    {
      View(h, root, c, t);
      hide At, Plug;
      ghost var up, o := c.up, c.sib;
      PaintSibling(other, h[parent].red, c, t);
      ghost var c1 := WithSib(c, Paint(o, c.red));
      Refocus(h, root, c1, t, up, Join(c1, t));
      SetColor(parent, false, up, Join(c1, t));
      ghost var p1 := T(Paint(o, c.red), c.n, false, t);
      ghost var d := InL(up, c.n, false, t);
      DownL(up, p1);
      DownL(d, Paint(o, c.red));
      Refocus(h, root, up, p1, InL(d, o.n, c.red, o.r), o.l);
      SetColor(far, false, InL(d, o.n, c.red, o.r), o.l);
      ghost var o2 := T(Paint(o.l, false), o.n, c.red, o.r);
      DownL(d, o2);
      DownL(up, T(o2, c.n, false, t));
      Refocus(h, root, InL(d, o.n, c.red, o.r), Paint(o.l, false), up, T(o2, c.n, false, t));
      RotateRight(parent, up, T(o2, c.n, false, t));
    }

    /** One turn of `__rb_erase_color` with the short subtree on the left. */
    method EraseStepLeft(parent: nat, ghost c: Ctx, ghost t: Tree)
      returns (done: bool, ghost c': Ctx, ghost t': Tree)
      requires At(h, root, c, t) && Short(c, t) && c.InL? && !RootRed(t) && parent == c.n
      modifies this
      ensures At(h, root, c', t') && Inorder(Plug(c', t')) == Inorder(Plug(c, t)) && |h| == |old(h)|
      ensures done ==> Settled(c', t') && t'.T?
      ensures !done ==> Short(c', t') && t'.T? && t'.n == parent && (RootRed(t') || c' == c.up)
    {
      View(h, root, c, t);
      SiblingExists(c, t);
      SibView(h, root, c, t);
      hide At, Inorder, Fine, GoodCtx, Short, Settled, Plug;
      var other := h[parent].right;
      ghost var c1 := c;
      if h[other].red {
        c1 := RedSiblingRight(parent, other, c, t);
        View(h, root, c1, t);
        other := h[parent].right;
      }
      SibView(h, root, c1, t);
      NephewView(h, root, c1, t);
      ghost var o := c1.sib;
      if (h[other].left == NIL || !h[h[other].left].red) && (h[other].right == NIL || !h[h[other].right].red) {
        BothBlackL(c1.up, t, c1.n, c1.red, o);
        PaintSibling(other, true, c1, t);
        c', t' := c1.up, T(t, c1.n, c1.red, Paint(o, true));
        DownL(c', t');
        Refocus(h, root, WithSib(c1, Paint(o, true)), t, c', t');
        return false, c', t';
      }
      if h[other].right == NIL || !h[h[other].right].red {
        NearRedL(c1.up, t, c1.n, c1.red, o);
        NearRotateRight(other, h[other].left, c1, t);
        c1 := WithSib(c1, NearL(o));
        View(h, root, c1, t);
        SibView(h, root, c1, t);
        other := h[parent].right;
      }
      FarRedL(c1.up, t, c1.n, c1.red, c1.sib);
      FarRotateRight(parent, other, h[other].right, c1, t);
      return true, c1.up, FarL(t, c1.n, c1.red, c1.sib);
    }

    method EraseStepRight(parent: nat, ghost c: Ctx, ghost t: Tree)
      returns (done: bool, ghost c': Ctx, ghost t': Tree)
      requires At(h, root, c, t) && Short(c, t) && c.InR? && !RootRed(t) && parent == c.n
      modifies this
      ensures At(h, root, c', t') && Inorder(Plug(c', t')) == Inorder(Plug(c, t)) && |h| == |old(h)|
      ensures done ==> Settled(c', t') && t'.T?
      ensures !done ==> Short(c', t') && t'.T? && t'.n == parent && (RootRed(t') || c' == c.up)
    {
      View(h, root, c, t);
      SiblingExists(c, t);
      SibView(h, root, c, t);
      hide At, Inorder, Fine, GoodCtx, Short, Settled, Plug;
      var other := h[parent].left;
      ghost var c1 := c;
      if h[other].red {
        c1 := RedSiblingLeft(parent, other, c, t);
        View(h, root, c1, t);
        other := h[parent].left;
      }
      SibView(h, root, c1, t);
      NephewView(h, root, c1, t);
      ghost var o := c1.sib;
      if (h[other].left == NIL || !h[h[other].left].red) && (h[other].right == NIL || !h[h[other].right].red) {
        BothBlackR(c1.up, t, c1.n, c1.red, o);
        PaintSibling(other, true, c1, t);
        c', t' := c1.up, T(Paint(o, true), c1.n, c1.red, t);
        DownR(c', t');
        Refocus(h, root, WithSib(c1, Paint(o, true)), t, c', t');
        return false, c', t';
      }
      if h[other].left == NIL || !h[h[other].left].red {
        NearRedR(c1.up, t, c1.n, c1.red, o);
        NearRotateLeft(other, h[other].right, c1, t);
        c1 := WithSib(c1, NearR(o));
        View(h, root, c1, t);
        SibView(h, root, c1, t);
        other := h[parent].left;
      }
      FarRedR(c1.up, t, c1.n, c1.red, c1.sib);
      FarRotateLeft(parent, other, h[other].left, c1, t);
      return true, c1.up, FarR(t, c1.n, c1.red, c1.sib);
    }

    /** `__rb_erase_color`: the subtree at node is one black node short. */
    method EraseColor(node0: nat, parent0: nat, ghost c0: Ctx, ghost t0: Tree) returns (ghost tree: Tree)
      requires At(h, root, c0, t0) && Short(c0, t0) && node0 == Ptr(t0) && parent0 == ParOf(c0)
      modifies this
      ensures Holds(h, root, tree) && RedBlack(tree) && |h| == |old(h)|
      ensures Inorder(tree) == Inorder(Plug(c0, t0))
    {
      hide At, Inorder, Fine, GoodCtx, Short, Settled, Plug, Height, RedBlack;
      var node, parent := node0, parent0;
      ghost var c, t := c0, t0;
      View(h, root, c, t);
      while (node == NIL || !h[node].red) && node != root
        invariant |h| == |old(h)|
        invariant At(h, root, c, t) && Short(c, t) && node == Ptr(t) && parent == ParOf(c)
        invariant node != NIL ==> node < |h|
        invariant Inorder(Plug(c, t)) == Inorder(Plug(c0, t0))
        decreases if RootRed(t) then 0 else 1 + Depth(c)
      {
        View(h, root, c, t);
        AtRoot(h, root, c, t);
        SiblingExists(c, t);
        SibView(h, root, c, t);
        var done;
        ghost var c1 := c;
        if h[parent].left == node {
          done, c, t := EraseStepLeft(parent, c, t);
        } else {
          done, c, t := EraseStepRight(parent, c, t);
        }
        if done {
          SettledRedBlack(c, t);
          tree := PaintRoot(c, t);
          return;
        }
        node := parent;
        View(h, root, c, t);
        parent := h[node].parent;
      }
      View(h, root, c, t);
      AtRoot(h, root, c, t);
      ShortDone(c, t);
      if node != NIL {
        SetColor(node, false, c, t);
        PaintedInorder(c, t);
        t := Paint(t, false);
      }
      SettledRedBlack(c, t);
      tree := Plug(c, t);
      Zip(h, root, c, t);
    }

    /** `rb_set_black` on the root of a tree that is already red-black. */
    method PaintRoot(ghost c: Ctx, ghost t: Tree) returns (ghost tree: Tree)
      requires At(h, root, c, t) && RedBlack(Plug(c, t)) && t.T?
      modifies this
      ensures Holds(h, root, tree) && tree == Plug(c, t) && |h| == |old(h)|
    {
      tree := Plug(c, t);
      PlugT(c, t);
      hide At, Plug, Holds;
      TopPlug(tree);
      Refocus(h, root, c, t, Top, tree);
      View(h, root, Top, tree);
      SetColor(root, false, Top, tree);
      TopHolds(h, root, tree);
    }

    /** The splice of `rb_erase`: a node with at most one child gives its place to the child. */
    method SpliceOut(node: nat, ghost c: Ctx, ghost t: Tree) returns (child: nat, parent: nat)
      requires At(h, root, c, t) && t.T? && t.n == node && (t.l.Leaf? || t.r.Leaf?)
      modifies this
      ensures At(h, root, c, OnlyChild(t)) && |h| == |old(h)|
      ensures child == Ptr(OnlyChild(t)) && parent == ParOf(c)
    {
      View(h, root, c, t);
      SpliceView(h, root, c, t);
      hide At;
      child := if h[node].left == NIL then h[node].right else h[node].left;
      parent := h[node].parent;
      if child != NIL {
        SetParent(child, parent);
      }
      ReplaceChild(parent, node, child);
      SpliceRep(old(h), h, old(root), root, c, t);
    }

    /** The loop of `rb_erase` that finds the in-order successor of a node with two children. */
    method FindSuccessor(node: nat, ghost c: Ctx, ghost t: Tree) returns (y: nat, ghost d: Ctx, ghost s: Tree)
      requires At(h, root, c, t) && t.T? && t.n == node && t.r.T?
      ensures LeftPath(d) && t.r == Plug(d, s) && s.T? && s.n == y && s.l.Leaf?
    {
      View(h, root, c, t);
      y := h[node].right;
      d, s := Top, t.r;
      ghost var x := InR(c, t.n, t.red, t.l);
      DownR(c, t);
      hide At, Plug;
      Refocus(h, root, c, t, x, s);
      TopPlug(s);
      View(h, root, x, s);
      while h[y].left != NIL
        invariant LeftPath(d) && t.r == Plug(d, s) && s.T? && s.n == y < |h| && h[y].left == Ptr(s.l)
        invariant At(h, root, Compose(d, x), s)
        decreases s
      {
        View(h, root, Compose(d, x), s);
        DownL(Compose(d, x), s);
        DownL(d, s);
        y := h[y].left;
        d, s := InL(d, s.n, s.red, s.r), s.l;
        Refocus(h, root, Compose(d.up, x), T(s, d.n, d.red, d.sib), Compose(d, x), s);
        View(h, root, Compose(d, x), s);
      }
      View(h, root, Compose(d, x), s);
    }

    /** The successor is the right child of the node it replaces. */
    method MoveAdjacent(node: nat, y: nat, ghost c: Ctx, ghost t: Tree) returns (child: nat, parent: nat)
      requires At(h, root, c, t) && t.T? && t.n == node && t.l.T? && t.r.T? && t.r.l.Leaf? && t.r.n == y
      modifies this
      ensures At(h, root, InR(c, y, t.red, t.l), t.r.r) && |h| == |old(h)|
      ensures child == Ptr(t.r.r) && parent == y
    {
      AdjacentView(h, root, c, t);
      hide At;
      ReplaceChild(h[node].parent, node, y);
      child := h[y].right;
      parent := y;
      h := h[y := h[y].(parent := h[node].parent, red := h[node].red)];
      SetLeft(y, h[node].left);
      SetParent(h[node].left, y);
      AdjacentRep(old(h), h, old(root), root, c, t);
    }

    /** The successor lies below the right child: it leaves its place to its own child. */
    method MoveDistant(node: nat, y: nat, ghost c: Ctx, ghost t: Tree, ghost d: Ctx, ghost s: Tree)
      returns (child: nat, parent: nat)
      requires At(h, root, c, t) && t.T? && t.n == node && t.l.T?
      requires t.r == Plug(d, s) && d.InL? && s.T? && s.l.Leaf? && s.n == y
      modifies this
      ensures At(h, root, Compose(d, InR(c, y, t.red, t.l)), s.r) && |h| == |old(h)|
      ensures child == Ptr(s.r) && parent == d.n
    {
      DistantView(h, root, c, t, d, s);
      SuccessorOutside(h, root, c, t, d, s);
      DistantSplice(h, root, c, t, d, s);
      PlugRoot(d, s, s.r);
      ghost var h1 := SplicedLeft(h, d.n, Ptr(s.r));
      ghost var t1 := T(t.l, t.n, t.red, Plug(d, s.r));
      hide At, Plug, Compose, Ids, CtxIds, Only, SplicedLeft;
      child, parent := Detach(node, y);
      TakePlace(y, node);
      DistantOnly(old(h), h1, h, y, t.n, t.l.n, t1.r.n, ParOf(c));
      ReplaceRep(h1, h, old(root), root, c, t1, y);
      MovedFocus(h, root, c, t, d, s);
    }

    /** The link to the node now leads to its successor, and the successor has left its place to its child. */
    method Detach(node: nat, y: nat) returns (child: nat, parent: nat)
      requires node < |h| && y < |h| && h[y].right < |h| && h[y].parent < |h|
      requires h[node].parent != NIL ==> h[node].parent < |h|
      requires h[node].parent !in {node, y, h[y].parent} && (h[node].parent != NIL ==> h[node].parent != h[y].right)
      requires h[y].parent !in {y, node} && h[y].right !in {y, node, h[y].parent}
      modifies this
      ensures child == old(h)[y].right && parent == old(h)[y].parent && |h| == |old(h)|
      ensures var pc := old(h)[node].parent; var h1 := SplicedLeft(old(h), parent, child);
        && (forall n :: 0 <= n < |h| && n != pc ==> h[n] == h1[n])
        && h1[node] == old(h)[node] && h1[y] == old(h)[y]
        && (pc == NIL ==> root == y && h == h1)
        && (pc != NIL ==> root == old(root) && h1[pc] == old(h)[pc])
        && (pc != NIL ==> h[pc] == if node == old(h)[pc].left then old(h)[pc].(left := y) else old(h)[pc].(right := y))
    {
      ReplaceChild(h[node].parent, node, y);
      child := h[y].right;
      parent := h[y].parent;
      if child != NIL {
        SetParent(child, parent);
      }
      SetLeft(parent, child);
    }

    /** The successor takes over the links and the colour of the node. */
    method TakePlace(y: nat, node: nat)
      requires y < |h| && node < |h| && h[node].left < |h| && h[node].right < |h|
      requires y != node && h[node].left != h[node].right
      requires h[node].left !in {y, node} && h[node].right !in {y, node}
      modifies this`h
      ensures |h| == |old(h)| && h[y] == old(h)[node]
      ensures h[old(h)[node].left] == old(h)[old(h)[node].left].(parent := y)
      ensures h[old(h)[node].right] == old(h)[old(h)[node].right].(parent := y)
      ensures forall n :: 0 <= n < |h| && n !in {y, old(h)[node].left, old(h)[node].right} ==> h[n] == old(h)[n]
    {
      SetRight(y, h[node].right);
      SetParent(h[node].right, y);
      h := h[y := h[y].(parent := h[node].parent, red := h[node].red)];
      SetLeft(y, h[node].left);
      SetParent(h[node].left, y);
    }

    /** `rb_erase`: the in-order sequence loses exactly the node, and the tree stays red-black. */
    method Erase(node: nat, ghost tree0: Tree) returns (ghost tree: Tree, ghost pre: seq<nat>, ghost post: seq<nat>)
      requires Holds(h, root, tree0) && RedBlack(tree0) && node in Ids(tree0)
      modifies this
      ensures Holds(h, root, tree) && RedBlack(tree) && |h| == |old(h)|
      ensures Inorder(tree0) == pre + [node] + post && Inorder(tree) == pre + post
    {
      ghost var c, t := Locate(tree0, node);
      Unzip(h, root, c, t);
      View(h, root, c, t);
      AroundFocus(c, t);
      pre, post := Before(c) + Inorder(t.l), Inorder(t.r) + After(c);
      hide At, Plug, Inorder, Before, After, RedBlack, Short, Settled, Holds, Ids, Height;
      var child, parent, red;
      ghost var e, rest;
      if h[node].left == NIL || h[node].right == NIL {
        red := h[node].red;
        SpliceGood(c, t);
        SpliceInorder(c, t);
        child, parent := SpliceOut(node, c, t);
        e, rest := c, OnlyChild(t);
      } else {
        var y;
        ghost var d, s;
        y, d, s := FindSuccessor(node, c, t);
        SuccessorGood(c, t, d, s);
        SuccessorInorder(c, t, d, s);
        SuccessorPlace(h, root, c, t, d, s);
        red := h[y].red;
        e, rest := Compose(d, InR(c, y, t.red, t.l)), s.r;
        if h[y].parent == node {
          child, parent := MoveAdjacent(node, y, c, t);
        } else {
          child, parent := MoveDistant(node, y, c, t, d, s);
        }
      }
      if !red {
        tree := EraseColor(child, parent, e, rest);
      } else {
        SettledRedBlack(e, rest);
        Zip(h, root, e, rest);
        tree := Plug(e, rest);
      }
    }

    /** Down to the left as far as possible. */
    method Leftmost(node: nat, ghost c: Ctx, ghost t: Tree) returns (y: nat)
      requires At(h, root, c, t) && t.T? && t.n == node
      ensures Inorder(t) + After(c) != [] && y == (Inorder(t) + After(c))[0]
    {
      hide At, Plug, Inorder, Before, After;
      View(h, root, c, t);
      y := node;
      ghost var post := Inorder(t) + After(c);
      ghost var d, s := c, t;
      while h[y].left != NIL
        invariant At(h, root, d, s) && s.T? && s.n == y < |h| && h[y].left == Ptr(s.l) && post == Inorder(s) + After(d)
        decreases s
      {
        View(h, root, d, s);
        AfterLeft(d, s);
        y := h[y].left;
        d, s := StepLeft(h, root, d, s);
      }
      View(h, root, d, s);
      FirstOf(d, s);
    }

    /** Up to the first ancestor on the right. */
    method ClimbRight(node: nat, ghost c: Ctx, ghost t: Tree) returns (parent: nat)
      requires At(h, root, c, t) && t.T? && t.n == node
      ensures parent == if After(c) == [] then NIL else After(c)[0]
    {
      hide At, Plug, Inorder, Before, After;
      View(h, root, c, t);
      var n := node;
      parent := h[n].parent;
      ghost var d, s := c, t;
      while parent != NIL && n == h[parent].right
        invariant At(h, root, d, s) && s.T? && s.n == n && parent == ParOf(d)
        invariant (parent != NIL ==> parent < |h|) && After(d) == After(c)
        decreases d
      {
        View(h, root, d, s);
        AfterUp(d);
        n := parent;
        d, s := StepUp(h, root, d, s);
        View(h, root, d, s);
        parent := h[n].parent;
      }
      View(h, root, d, s);
      AfterUp(d);
    }

    /** `rb_next`: the next node in order, or NULL for the last one. */
    method Next(node: nat, ghost tree0: Tree) returns (next: nat)
      requires Holds(h, root, tree0) && node in Ids(tree0)
      ensures Follows(Inorder(tree0), node, next)
    {
      ghost var c, t := Locate(tree0, node);
      Unzip(h, root, c, t);
      View(h, root, c, t);
      AroundFocus(c, t);
      SplitFollows(Inorder(tree0), Before(c) + Inorder(t.l), node, Inorder(t.r) + After(c));
      hide At, Plug, Inorder, Before, After, Holds, Ids, Follows;
      if h[node].right != NIL {
        AfterRight(c, t);
        ghost var d, s := StepRight(h, root, c, t);
        next := Leftmost(h[node].right, d, s);
      } else {
        RightEnd(c, t);
        next := ClimbRight(node, c, t);
      }
    }

    /** Down to the right as far as possible. */
    method Rightmost(node: nat, ghost c: Ctx, ghost t: Tree) returns (y: nat)
      requires At(h, root, c, t) && t.T? && t.n == node
      ensures Before(c) + Inorder(t) != [] && y == (Before(c) + Inorder(t))[|Before(c) + Inorder(t)| - 1]
    {
      hide At, Plug, Inorder, Before, After;
      View(h, root, c, t);
      y := node;
      ghost var pre := Before(c) + Inorder(t);
      ghost var d, s := c, t;
      while h[y].right != NIL
        invariant At(h, root, d, s) && s.T? && s.n == y < |h| && h[y].right == Ptr(s.r) && pre == Before(d) + Inorder(s)
        decreases s
      {
        View(h, root, d, s);
        BeforeRight(d, s);
        y := h[y].right;
        d, s := StepRight(h, root, d, s);
      }
      View(h, root, d, s);
      LastOf(d, s);
    }

    /** Up to the first ancestor on the left. */
    method ClimbLeft(node: nat, ghost c: Ctx, ghost t: Tree) returns (parent: nat)
      requires At(h, root, c, t) && t.T? && t.n == node
      ensures parent == if Before(c) == [] then NIL else Before(c)[|Before(c)| - 1]
    {
      hide At, Plug, Inorder, Before, After;
      View(h, root, c, t);
      var n := node;
      parent := h[n].parent;
      ghost var d, s := c, t;
      while parent != NIL && n == h[parent].left
        invariant At(h, root, d, s) && s.T? && s.n == n && parent == ParOf(d)
        invariant (parent != NIL ==> parent < |h|) && Before(d) == Before(c)
        decreases d
      {
        View(h, root, d, s);
        BeforeUp(d);
        n := parent;
        d, s := StepUp(h, root, d, s);
        View(h, root, d, s);
        parent := h[n].parent;
      }
      View(h, root, d, s);
      BeforeUp(d);
    }

    /** `rb_prev`: the previous node in order, or NULL for the first one. */
    method Prev(node: nat, ghost tree0: Tree) returns (prev: nat)
      requires Holds(h, root, tree0) && node in Ids(tree0)
      ensures Precedes(Inorder(tree0), node, prev)
    {
      ghost var c, t := Locate(tree0, node);
      Unzip(h, root, c, t);
      View(h, root, c, t);
      AroundFocus(c, t);
      SplitFollows(Inorder(tree0), Before(c) + Inorder(t.l), node, Inorder(t.r) + After(c));
      hide At, Plug, Inorder, Before, After, Holds, Ids, Precedes;
      if h[node].left != NIL {
        BeforeDown(c, t);
        ghost var d, s := StepLeft(h, root, c, t);
        prev := Rightmost(h[node].left, d, s);
      } else {
        LeftEnd(c, t);
        prev := ClimbLeft(node, c, t);
      }
    }
  }

  // ---------------------------------------------------------------- walking

  /** In the sequence, `next` comes right after `node`, or is NULL at the end. */
  ghost predicate Follows(s: seq<nat>, node: nat, next: nat)
  {
    exists i :: 0 <= i < |s| && s[i] == node && next == if i + 1 < |s| then s[i + 1] else NIL
  }

  /** In the sequence, `prev` comes right before `node`, or is NULL at the start. */
  ghost predicate Precedes(s: seq<nat>, node: nat, prev: nat)
  {
    exists i :: 0 <= i < |s| && s[i] == node && prev == if i > 0 then s[i - 1] else NIL
  }

  lemma SplitFollows(s: seq<nat>, pre: seq<nat>, node: nat, post: seq<nat>)
    requires s == pre + [node] + post
    ensures Follows(s, node, if post == [] then NIL else post[0])
    ensures Precedes(s, node, if pre == [] then NIL else pre[|pre| - 1])
  {
    var i := |pre|;
    assert s[i] == node && |s| == i + 1 + |post|;
    assert post != [] ==> s[i + 1] == post[0];
    assert pre != [] ==> s[i - 1] == pre[i - 1];
    var prev := if pre == [] then NIL else pre[|pre| - 1];
    assert 0 <= i < |s| && s[i] == node && prev == if i > 0 then s[i - 1] else NIL;
  }

  lemma StepLeft(h: Heap, root: nat, c: Ctx, t: Tree) returns (c': Ctx, t': Tree)
    requires At(h, root, c, t) && t.T? && t.l.T?
    ensures c' == InL(c, t.n, t.red, t.r) && t' == t.l && At(h, root, c', t')
    ensures t'.n < |h| && h[t'.n].left == Ptr(t'.l) && h[t'.n].right == Ptr(t'.r)
  {
    c', t' := InL(c, t.n, t.red, t.r), t.l;
    DownL(c, t);
    hide At, Plug;
    Refocus(h, root, c, t, c', t');
    View(h, root, c', t');
  }

  lemma StepRight(h: Heap, root: nat, c: Ctx, t: Tree) returns (c': Ctx, t': Tree)
    requires At(h, root, c, t) && t.T? && t.r.T?
    ensures c' == InR(c, t.n, t.red, t.l) && t' == t.r && At(h, root, c', t')
    ensures t'.n < |h| && h[t'.n].left == Ptr(t'.l) && h[t'.n].right == Ptr(t'.r)
  {
    c', t' := InR(c, t.n, t.red, t.l), t.r;
    DownR(c, t);
    hide At, Plug;
    Refocus(h, root, c, t, c', t');
    View(h, root, c', t');
  }

  lemma StepUp(h: Heap, root: nat, c: Ctx, t: Tree) returns (c': Ctx, t': Tree)
    requires At(h, root, c, t) && !c.Top?
    ensures c' == c.up && t'.T? && t'.n == c.n && At(h, root, c', t')
  {
    c', t' := c.up, if c.InL? then T(t, c.n, c.red, c.sib) else T(c.sib, c.n, c.red, t);
    assert Plug(c, t) == Plug(c', t');
    hide At, Plug;
    Refocus(h, root, c, t, c', t');
  }

  /** What comes after the focus, going down to the left and up from the right. */
  lemma AfterLeft(c: Ctx, t: Tree)
    requires t.T?
    ensures Inorder(t) + After(c) == Inorder(t.l) + After(InL(c, t.n, t.red, t.r))
  {
    assert (Inorder(t.l) + [t.n] + Inorder(t.r)) + After(c) == Inorder(t.l) + ([t.n] + Inorder(t.r) + After(c));
  }

  lemma AfterRight(c: Ctx, t: Tree)
    requires t.T?
    ensures After(InR(c, t.n, t.red, t.l)) == After(c)
  {
  }

  lemma AfterUp(c: Ctx)
    ensures c.Top? ==> After(c) == []
    ensures c.InL? ==> After(c) != [] && After(c)[0] == c.n
    ensures c.InR? ==> After(c) == After(c.up)
  {
  }

  lemma FirstOf(c: Ctx, t: Tree)
    requires t.T? && t.l.Leaf?
    ensures Inorder(t) + After(c) != [] && (Inorder(t) + After(c))[0] == t.n
  {
  }

  lemma RightEnd(c: Ctx, t: Tree)
    requires t.T? && t.r.Leaf?
    ensures Inorder(t.r) + After(c) == After(c)
  {
  }

  /** What comes before the focus, going down to the right and up from the left. */
  lemma BeforeRight(c: Ctx, t: Tree)
    requires t.T?
    ensures Before(c) + Inorder(t) == Before(InR(c, t.n, t.red, t.l)) + Inorder(t.r)
  {
    assert Before(c) + (Inorder(t.l) + [t.n] + Inorder(t.r)) == (Before(c) + Inorder(t.l) + [t.n]) + Inorder(t.r);
  }

  lemma BeforeDown(c: Ctx, t: Tree)
    requires t.T?
    ensures Before(InL(c, t.n, t.red, t.r)) == Before(c)
  {
  }

  lemma BeforeUp(c: Ctx)
    ensures c.Top? ==> Before(c) == []
    ensures c.InL? ==> Before(c) == Before(c.up)
    ensures c.InR? ==> Before(c) != [] && Before(c)[|Before(c)| - 1] == c.n
  {
  }

  lemma LastOf(c: Ctx, t: Tree)
    requires t.T? && t.r.Leaf?
    ensures Before(c) + Inorder(t) != [] && (Before(c) + Inorder(t))[|Before(c) + Inorder(t)| - 1] == t.n
  {
  }

  lemma LeftEnd(c: Ctx, t: Tree)
    requires t.T? && t.l.Leaf?
    ensures Before(c) + Inorder(t.l) == Before(c)
  {
  }

  /** Where the successor stands. */
  lemma SuccessorPlace(h: Heap, root: nat, c: Ctx, t: Tree, d: Ctx, s: Tree)
    requires At(h, root, c, t) && t.T? && t.r == Plug(d, s) && LeftPath(d) && s.T? && s.l.Leaf?
    ensures s.n < |h| && h[s.n].red == s.red && (h[s.n].parent == t.n <==> d.Top?)
    ensures d.Top? ==> t.r == s && Compose(d, InR(c, s.n, t.red, t.l)) == InR(c, s.n, t.red, t.l)
    ensures !d.Top? ==> d.InL? && ParOf(Compose(d, InR(c, s.n, t.red, t.l))) == d.n
  {
    if d.Top? { TopPlug(s); }
    hide Rep, Distinct, Ids, RepCtx, DistinctCtx, CtxIds, Plug;
    Open(h, ParOf(c), t);
    if d.Top? {
      Open(h, t.n, t.r);
    } else {
      RightView(h, t.n, t.r, d, s);
    }
  }

  lemma DistantSplice(h: Heap, root: nat, c: Ctx, t: Tree, d: Ctx, s: Tree)
    requires At(h, root, c, t) && t.T? && t.l.T? && t.r == Plug(d, s) && d.InL? && s.T? && s.l.Leaf?
    ensures d.n < |h| && Ptr(s.r) < |h|
    ensures At(SplicedLeft(h, d.n, Ptr(s.r)), root, c, T(t.l, t.n, t.red, Plug(d, s.r)))
  {
    hide At, Plug, Compose, SplicedLeft, Only;
    DistantView(h, root, c, t, d, s);
    var e := Compose(d, InR(c, t.n, t.red, t.l));
    var t1 := T(t.l, t.n, t.red, Plug(d, s.r));
    ComposeFocus(c, t, d, s);
    ComposeFocus(c, t1, d, s.r);
    Refocus(h, root, c, t, e, s);
    View(h, root, e, s);
    SplicedOnly(h, d.n, Ptr(s.r));
    SpliceRep(h, SplicedLeft(h, d.n, Ptr(s.r)), root, root, e, s);
    Refocus(SplicedLeft(h, d.n, Ptr(s.r)), root, e, s.r, c, t1);
  }

  lemma SplicedOnly(h: Heap, p: nat, child: nat)
    requires p < |h| && child < |h| && p != child
    ensures var h1 := SplicedLeft(h, p, child);
      && |h1| == |h| && Only(h, h1, {child, p})
      && h1[p] == h[p].(left := child) && (child != NIL ==> h1[child] == h[child].(parent := p))
  {
  }

  lemma ComposeFocus(c: Ctx, t: Tree, d: Ctx, s: Tree)
    requires t.T? && t.r == Plug(d, s)
    ensures var e := Compose(d, InR(c, t.n, t.red, t.l));
      Plug(e, s) == Plug(c, t) && (d.InL? ==> e.InL? && e.n == d.n)
  {
    ComposePlug(d, InR(c, t.n, t.red, t.l), s);
    DownR(c, t);
  }

  lemma DistantOnly(h: Heap, h1: Heap, h2: Heap, y: nat, x: nat, l: nat, r: nat, pc: nat)
    requires |h| == |h1| == |h2|
    requires forall n :: 0 <= n < |h| && n !in {y, l, r, pc} ==> h2[n] == h1[n]
    ensures Only(h1, h2, {y, x, l, r, pc})
  {
  }

  lemma MovedFocus(h: Heap, root: nat, c: Ctx, t: Tree, d: Ctx, s: Tree)
    requires t.T? && s.T? && At(h, root, c, T(t.l, s.n, t.red, Plug(d, s.r)))
    ensures At(h, root, Compose(d, InR(c, s.n, t.red, t.l)), s.r)
  {
    ComposePlug(d, InR(c, s.n, t.red, t.l), s.r);
    DownR(c, T(t.l, s.n, t.red, Plug(d, s.r)));
    hide At;
    Refocus(h, root, c, T(t.l, s.n, t.red, Plug(d, s.r)), Compose(d, InR(c, s.n, t.red, t.l)), s.r);
  }

  /** The child of a node with at most one child, and the link to the node. */
  lemma SpliceView(h: Heap, root: nat, c: Ctx, t: Tree)
    requires At(h, root, c, t) && t.T? && (t.l.Leaf? || t.r.Leaf?)
    ensures var ch := OnlyChild(t);
      && (ch.T? ==> ch.n != NIL && ch.n < |h| && ch.n != ParOf(c))
      && (c.InR? ==> h[c.n].left != t.n)
  {
    var ch := OnlyChild(t);
    CtxRepIds(h, root, c, t.n);
    ParInCtx(c);
    PtrInIds(ch);
    PtrInIds(t);
    HoleLink(h, root, c, t.n);
    RepIds(h, t.n, ch);
  }

  lemma PaintedInorder(c: Ctx, t: Tree)
    requires t.T?
    ensures Inorder(Plug(c, Paint(t, false))) == Inorder(Plug(c, t))
  {
    PlugSame(c, Paint(t, false), t);
  }

  lemma TopPlug(t: Tree)
    ensures Plug(Top, t) == t
  {
  }

  lemma TopHolds(h: Heap, root: nat, t: Tree)
    ensures At(h, root, Top, t) <==> Holds(h, root, t)
  {
  }

  /** The addresses a left rotation touches are distinct, and what their fields hold. */
  lemma RotLView(h: Heap, root: nat, c: Ctx, t: Tree)
    requires At(h, root, c, t) && t.T? && t.r.T?
    ensures var x, y, b, p := t.n, t.r.n, Ptr(t.r.l), ParOf(c);
      && x < |h| && y < |h| && (b != NIL ==> b < |h|) && (p != NIL ==> p < |h|)
      && x != NIL && y != NIL && x != y && b != x && b != y && p != x && p != y && (b != NIL ==> b != p)
      && h[x] == Node(p, t.red, Ptr(t.l), y) && h[y] == Node(x, t.r.red, b, Ptr(t.r.r))
      && (b != NIL <==> t.r.l.T?) && (t.r.l.T? ==> t.r.l.n == b)
      && (p == NIL <==> c.Top?) && (!c.Top? ==> c.n == p)
      && (p != NIL ==> (h[p].left == x <==> c.InL?))
  {
    hide Rep, Distinct, Ids, RepCtx, DistinctCtx, CtxIds;
    CtxRepIds(h, root, c, t.n);
    Open(h, ParOf(c), t);
    Open(h, t.n, t.r);
    Open(h, t.r.n, t.r.l);
    PtrInIds(t.r.l);
    PtrInIds(t.r);
    ParInCtx(c);
    HoleLink(h, root, c, t.n);
  }

  /** The addresses a right rotation touches are distinct, and what their fields hold. */
  lemma RotRView(h: Heap, root: nat, c: Ctx, t: Tree)
    requires At(h, root, c, t) && t.T? && t.l.T?
    ensures var x, y, b, p := t.n, t.l.n, Ptr(t.l.r), ParOf(c);
      && x < |h| && y < |h| && (b != NIL ==> b < |h|) && (p != NIL ==> p < |h|)
      && x != NIL && y != NIL && x != y && b != x && b != y && p != x && p != y && (b != NIL ==> b != p)
      && h[x] == Node(p, t.red, y, Ptr(t.r)) && h[y] == Node(x, t.l.red, Ptr(t.l.l), b)
      && (b != NIL <==> t.l.r.T?) && (t.l.r.T? ==> t.l.r.n == b)
      && (p == NIL <==> c.Top?) && (!c.Top? ==> c.n == p)
      && (p != NIL ==> (h[p].left == x <==> c.InL?))
  {
    hide Rep, Distinct, Ids, RepCtx, DistinctCtx, CtxIds;
    CtxRepIds(h, root, c, t.n);
    Open(h, ParOf(c), t);
    Open(h, t.n, t.l);
    Open(h, t.l.n, t.l.r);
    PtrInIds(t.l.r);
    PtrInIds(t.l);
    ParInCtx(c);
    HoleLink(h, root, c, t.n);
  }
}
