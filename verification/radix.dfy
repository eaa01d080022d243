/** The growth of the radix tree of kernel/kern/radix.c: nodes of 64 slots, six bits of the key to a level,
    and a tree that is made higher as larger keys come. */
module Radix {

  const SLOTS: nat := 64
  const DEPTH: nat := 6                // levels needed for a 32-bit key
  const NULL: nat := 0

  type Key = k: nat | k < 0x1_0000_0000

  // ---------------------------------------------------------------- keys as paths

  function Pow64(n: nat): (r: nat)
    ensures r > 0
  {
    if n == 0 then 1 else 64 * Pow64(n - 1)
  }

  /** NEXT_CHILD: the slot of the key in a node `current` levels below the root. */
  function NextChild(height: nat, current: nat, key: Key): nat
    requires current < height
  {
    key / Pow64(height - (current + 1)) % 64
  }

  /** MAX_KEY_ID */
  function MaxKey(height: nat): nat
  {
    if height == DEPTH then 0xFFFF_FFFF else Pow64(height) - 1
  }

  /** The slots a key takes in a tree of full height. */
  function Path(key: Key): (r: seq<nat>)
    ensures |r| == DEPTH && forall i :: 0 <= i < DEPTH ==> r[i] < SLOTS
  {
    [key / 0x4000_0000, key / 0x100_0000 % 64, key / 0x4_0000 % 64, key / 0x1000 % 64, key / 64 % 64, key % 64]
  }

  function Zeros(n: nat): (r: seq<nat>)
    ensures |r| == n && forall i :: 0 <= i < n ==> r[i] == 0
  {
    seq(n, _ => 0)
  }

  lemma Powers()
    ensures Pow64(0) == 1 && Pow64(1) == 64 && Pow64(2) == 0x1000
    ensures Pow64(3) == 0x4_0000 && Pow64(4) == 0x100_0000 && Pow64(5) == 0x4000_0000
  {
    assert Pow64(1) == 64;
    assert Pow64(2) == 64 * Pow64(1);
    assert Pow64(3) == 64 * Pow64(2);
    assert Pow64(4) == 64 * Pow64(3);
    assert Pow64(5) == 64 * Pow64(4);
  }

  lemma NextChildIsPath(height: nat, current: nat, key: Key)
    requires current < height <= DEPTH
    ensures NextChild(height, current, key) == Path(key)[DEPTH - height + current]
  {
    Powers();
    var s := height - (current + 1);
    assert s == 0 || s == 1 || s == 2 || s == 3 || s == 4 || s == 5;
    hide Pow64;
  }

  /** A key fits in a tree exactly when its path begins with zeros. */
  lemma FitsIff(height: nat, key: Key)
    requires 0 < height <= DEPTH
    ensures key <= MaxKey(height) <==> Path(key)[..DEPTH - height] == Zeros(DEPTH - height)
  {
    Powers();
    hide Pow64;
    var p := Path(key);
    var z := Zeros(DEPTH - height);
    assert p[..DEPTH - height] == z <==> forall i :: 0 <= i < DEPTH - height ==> p[i] == 0;
    assert height == 1 || height == 2 || height == 3 || height == 4 || height == 5 || height == 6;
    if height == 1 { assert p[..5] == z <==> p[0] == 0 && p[1] == 0 && p[2] == 0 && p[3] == 0 && p[4] == 0; }
    if height == 2 { assert p[..4] == z <==> p[0] == 0 && p[1] == 0 && p[2] == 0 && p[3] == 0; }
    if height == 3 { assert p[..3] == z <==> p[0] == 0 && p[1] == 0 && p[2] == 0; }
    if height == 4 { assert p[..2] == z <==> p[0] == 0 && p[1] == 0; }
    if height == 5 { assert p[..1] == z <==> p[0] == 0; }
  }

  lemma Chain(key: Key)
    ensures key / 64 / 64 == key / 0x1000
    ensures key / 0x1000 / 64 == key / 0x4_0000
    ensures key / 0x4_0000 / 64 == key / 0x100_0000
    ensures key / 0x100_0000 / 64 == key / 0x4000_0000
  {
  }

  lemma Digit(x: nat, y: nat)
    requires x / 64 == y / 64 && x % 64 == y % 64
    ensures x == y
  {
  }

  /** Different keys have different paths. */
  lemma PathInjective(j: Key, k: Key)
    requires Path(j) == Path(k)
    ensures j == k
  {
    var p, q := Path(j), Path(k);
    assert p[0] == q[0] && p[1] == q[1] && p[2] == q[2] && p[3] == q[3] && p[4] == q[4] && p[5] == q[5];
    Chain(j);
    Chain(k);
    Digit(j / 0x100_0000, k / 0x100_0000);
    Digit(j / 0x4_0000, k / 0x4_0000);
    Digit(j / 0x1000, k / 0x1000);
    Digit(j / 64, k / 64);
    Digit(j, k);
  }

  // ---------------------------------------------------------------- nodes

  /** `struct radix_node_s` without tags, summary bits and parent. */
  datatype Node = Node(children: seq<nat>, count: nat)

  type Nodes = map<nat, Node>

  /** Which node stands at which prefix of the full-height paths. */
  type Places = map<seq<nat>, nat>

  function Used(children: seq<nat>): nat
  {
    if children == [] then 0 else Used(children[1..]) + if children[0] != NULL then 1 else 0
  }

  lemma {:induction false} UsedSet(children: seq<nat>, i: nat, c: nat)
    requires i < |children| && children[i] == NULL
    ensures Used(children[i := c]) == Used(children) + if c != NULL then 1 else 0
  {
    if i == 0 {
      assert children[0 := c][1..] == children[1..];
    } else {
      UsedSet(children[1..], i - 1, c);
      assert children[i := c][1..] == children[1..][i - 1 := c];
    }
  }

  lemma {:induction false} UsedNone(n: nat)
    ensures Used(Zeros(n)) == 0
  {
    if n > 0 {
      UsedNone(n - 1);
      assert Zeros(n)[1..] == Zeros(n - 1);
    }
  }

  /** The node at prefix `p` is well formed. */
  ghost predicate NodeOk(nodes: Nodes, at: Places, p: seq<nat>)
  {
    && p in at && at[p] in nodes && at[p] != NULL
    && |nodes[at[p]].children| == SLOTS && nodes[at[p]].count == Used(nodes[at[p]].children)
  }

  /** A slot of an inner node holds exactly the node at the longer prefix. */
  ghost predicate SlotOk(nodes: Nodes, at: Places, p: seq<nat>, i: nat)
    requires NodeOk(nodes, at, p) && i < SLOTS
  {
    nodes[at[p]].children[i] == if p + [i] in at then at[p + [i]] else NULL
  }

  /** The prefixes in use: those of the current height, closed towards the root. */
  ghost predicate Shape(at: Places, height: nat)
  {
    && height <= DEPTH
    && (forall p :: p in at ==> DEPTH - height <= |p| < DEPTH && p[..DEPTH - height] == Zeros(DEPTH - height))
    && (forall p :: p in at && |p| > DEPTH - height ==> p[..|p| - 1] in at)
    && (height > 0 ==> Zeros(DEPTH - height) in at)
  }

  /** No node stands at two places. */
  ghost predicate Injective(at: Places)
  {
    forall p, q :: p in at && q in at && at[p] == at[q] ==> p == q
  }

  ghost predicate Tree(nodes: Nodes, at: Places, height: nat)
  {
    && Shape(at, height) && Injective(at)
    && (forall p :: p in at ==> NodeOk(nodes, at, p))
    && (forall p, i :: p in at && |p| + 1 < DEPTH && 0 <= i < SLOTS ==> SlotOk(nodes, at, p, i))
  }

  /** The item at the end of a path, NULL if there is none. */
  ghost function Item(nodes: Nodes, at: Places, path: seq<nat>): nat
    requires |path| == DEPTH && path[5] < SLOTS
  {
    if path[..5] in at && at[path[..5]] in nodes && |nodes[at[path[..5]]].children| == SLOTS
    then nodes[at[path[..5]]].children[path[5]] else NULL
  }

  /** Every path leads to the same item. */
  ghost predicate SameItems(nodes: Nodes, at: Places, nodes': Nodes, at': Places)
  {
    forall path :: |path| == DEPTH && path[5] < SLOTS ==> Item(nodes', at', path) == Item(nodes, at, path)
  }

  lemma SameTwice(n: Nodes, a: Places, n': Nodes, a': Places, n'': Nodes, a'': Places)
    requires SameItems(n, a, n', a') && SameItems(n', a', n'', a'')
    ensures SameItems(n, a, n'', a'')
  {
  }

  const EMPTY: Node := Node(Zeros(SLOTS), 0)

  /** If the node at the end of a prefix exists, so do all nodes on the way. */
  lemma {:induction false} Closed(at: Places, height: nat, p: seq<nat>, n: nat)
    requires Shape(at, height) && p in at && DEPTH - height <= n <= |p|
    ensures p[..n] in at
    decreases |p| - n
  {
    if n == |p| {
      assert p[..n] == p;
    } else {
      Closed(at, height, p, n + 1);
      assert p[..n + 1][..n] == p[..n];
    }
  }

  lemma FreshPlace(nodes: Nodes, at: Places, p: seq<nat>, f: nat)
    requires Injective(at) && f !in nodes && forall q :: q in at ==> NodeOk(nodes, at, q)
    ensures Injective(at[p := f])
  {
    assert forall q :: q in at ==> NodeOk(nodes, at, q) && at[q] != f;
  }

  /** A fresh node on top: the tree is one level higher, and holds the same items. */
  lemma Grow(nodes: Nodes, at: Places, height: nat, f: nat, root: nat)
    requires Tree(nodes, at, height) && height < DEPTH && f != NULL && f !in nodes
    requires root == if height > 0 then at[Zeros(DEPTH - height)] else NULL
    ensures var top := Zeros(DEPTH - height - 1);
      var nodes', at' := nodes[f := Node(Zeros(SLOTS)[0 := root], if height > 0 then 1 else 0)], at[top := f];
      && Tree(nodes', at', height + 1)
      && SameItems(nodes, at, nodes', at')
  {
    var n := DEPTH - height;
    var top := Zeros(n - 1);
    var node := Node(Zeros(SLOTS)[0 := root], if height > 0 then 1 else 0);
    var nodes', at' := nodes[f := node], at[top := f];
    UsedNone(SLOTS);
    UsedSet(Zeros(SLOTS), 0, root);
    GrowShape(at, height, f);
    FreshPlace(nodes, at, top, f);
    GrowSlots(nodes, at, height, f, root);
    assert height == 0 ==> at == map[];
    hide Shape, Used, SlotOk;
    forall p | p in at'
      ensures NodeOk(nodes', at', p)
    {
      if p != top {
        assert NodeOk(nodes, at, p);
      }
    }
    forall path | |path| == DEPTH && path[5] < SLOTS
      ensures Item(nodes', at', path) == Item(nodes, at, path)
    {
      if path[..5] in at {
        assert NodeOk(nodes, at, path[..5]);
      }
    }
  }

  lemma ShorterZeros(p: seq<nat>, n: nat)
    requires 0 < n <= |p| && p[..n] == Zeros(n)
    ensures p[..n - 1] == Zeros(n - 1)
  {
    assert p[..n][..n - 1] == p[..n - 1];
  }

  lemma GrowShape(at: Places, height: nat, f: nat)
    requires Shape(at, height) && height < DEPTH
    ensures Zeros(DEPTH - height - 1) !in at
    ensures Shape(at[Zeros(DEPTH - height - 1) := f], height + 1)
  {
    var n := DEPTH - height;
    var top := Zeros(n - 1);
    var at' := at[top := f];
    assert top[..n - 1] == top;
    forall p | p in at
      ensures p[..n - 1] == top && p[..|p| - 1] in at'
    {
      ShorterZeros(p, n);
    }
  }

  lemma GrowSlots(nodes: Nodes, at: Places, height: nat, f: nat, root: nat)
    requires Tree(nodes, at, height) && height < DEPTH && f != NULL && f !in nodes
    requires root == if height > 0 then at[Zeros(DEPTH - height)] else NULL
    ensures var top := Zeros(DEPTH - height - 1);
      var nodes', at' := nodes[f := Node(Zeros(SLOTS)[0 := root], if height > 0 then 1 else 0)], at[top := f];
      forall p, i :: p in at' && |p| + 1 < DEPTH && 0 <= i < SLOTS && NodeOk(nodes', at', p) ==>
        SlotOk(nodes', at', p, i)
  {
    var n := DEPTH - height;
    var top := Zeros(n - 1);
    var nodes', at' := nodes[f := Node(Zeros(SLOTS)[0 := root], if height > 0 then 1 else 0)], at[top := f];
    hide Used;
    forall p, i | p in at' && |p| + 1 < DEPTH && 0 <= i < SLOTS && NodeOk(nodes', at', p)
      ensures SlotOk(nodes', at', p, i)
    {
      assert |p + [i]| > n - 1;
      if p == top {
        assert height > 0 && top + [0] == Zeros(n);
        assert (p + [i])[n - 1] == i;
      } else {
        assert NodeOk(nodes, at, p) && SlotOk(nodes, at, p, i);
      }
    }
  }

  /** The node at prefix `p` with slot `i`, until now empty, filled. */
  function Filled(nodes: Nodes, at: Places, p: seq<nat>, i: nat, c: nat): Nodes
    requires p in at && at[p] in nodes && i < |nodes[at[p]].children|
  {
    var node := nodes[at[p]];
    nodes[at[p] := Node(node.children[i := c], node.count + 1)]
  }

  /** `create_node`: a fresh, empty node below the node at `p`; no item changes. */
  lemma Create(nodes: Nodes, at: Places, height: nat, p: seq<nat>, i: nat, f: nat)
    requires Tree(nodes, at, height) && p in at && |p| + 1 < DEPTH && i < SLOTS && f != NULL && f !in nodes
    requires p + [i] !in at
    ensures var nodes', at' := Filled(nodes, at, p, i, f)[f := EMPTY], at[p + [i] := f];
      && Tree(nodes', at', height)
      && SameItems(nodes, at, nodes', at')
  {
    CreateShape(at, height, p, i, f);
    FreshPlace(nodes, at, p + [i], f);
    CreateSlots(nodes, at, height, p, i, f);
    CreateNodes(nodes, at, height, p, i, f);
    CreateItems(nodes, at, height, p, i, f);
    hide Shape, Injective, NodeOk, SlotOk, Item, SameItems, Filled;
  }

  lemma CreateNodes(nodes: Nodes, at: Places, height: nat, p: seq<nat>, i: nat, f: nat)
    requires Tree(nodes, at, height) && p in at && |p| + 1 < DEPTH && i < SLOTS && f != NULL && f !in nodes
    requires p + [i] !in at
    ensures var nodes', at' := Filled(nodes, at, p, i, f)[f := EMPTY], at[p + [i] := f];
      forall q :: q in at' ==> NodeOk(nodes', at', q)
  {
    var nodes', at' := Filled(nodes, at, p, i, f)[f := EMPTY], at[p + [i] := f];
    assert SlotOk(nodes, at, p, i) && NodeOk(nodes, at, p);
    UsedNone(SLOTS);
    UsedSet(nodes[at[p]].children, i, f);
    hide Shape, Used, SlotOk, Zeros;
    assert nodes'[f] == EMPTY && nodes'[at[p]].children == nodes[at[p]].children[i := f];
    forall q | q in at'
      ensures NodeOk(nodes', at', q)
    {
      if q == p + [i] {
        assert at'[q] == f;
      } else if q != p {
        assert NodeOk(nodes, at, q) && at[q] != at[p] && at[q] != f;
        assert nodes'[at[q]] == nodes[at[q]];
      }
    }
  }

  lemma CreateItems(nodes: Nodes, at: Places, height: nat, p: seq<nat>, i: nat, f: nat)
    requires Tree(nodes, at, height) && p in at && |p| + 1 < DEPTH && i < SLOTS && f != NULL && f !in nodes
    requires p + [i] !in at
    ensures var nodes', at' := Filled(nodes, at, p, i, f)[f := EMPTY], at[p + [i] := f];
      SameItems(nodes, at, nodes', at')
  {
    var nodes', at' := Filled(nodes, at, p, i, f)[f := EMPTY], at[p + [i] := f];
    hide Shape, Used, SlotOk;
    forall path | |path| == DEPTH && path[5] < SLOTS
      ensures Item(nodes', at', path) == Item(nodes, at, path)
    {
      if path[..5] in at {
        assert NodeOk(nodes, at, path[..5]);
        assert path[..5] != p && at[path[..5]] != at[p];
      }
    }
  }

  lemma CreateShape(at: Places, height: nat, p: seq<nat>, i: nat, f: nat)
    requires Shape(at, height) && p in at && |p| + 1 < DEPTH && p + [i] !in at
    ensures Shape(at[p + [i] := f], height)
  {
    var at' := at[p + [i] := f];
    var n := DEPTH - height;
    forall q | q in at'
      ensures n <= |q| < DEPTH && q[..n] == Zeros(n) && (|q| > n ==> q[..|q| - 1] in at')
    {
      if q !in at {
        assert q[..n] == p[..n] && q[..|q| - 1] == p;
      }
    }
  }

  lemma CreateSlots(nodes: Nodes, at: Places, height: nat, p: seq<nat>, i: nat, f: nat)
    requires Tree(nodes, at, height) && p in at && |p| + 1 < DEPTH && i < SLOTS && f != NULL && f !in nodes
    requires p + [i] !in at
    ensures var nodes', at' := Filled(nodes, at, p, i, f)[f := EMPTY], at[p + [i] := f];
      forall q, j :: q in at' && |q| + 1 < DEPTH && 0 <= j < SLOTS && NodeOk(nodes', at', q) ==>
        SlotOk(nodes', at', q, j)
  {
    var nodes', at' := Filled(nodes, at, p, i, f)[f := EMPTY], at[p + [i] := f];
    hide Used;
    forall q, j | q in at' && |q| + 1 < DEPTH && 0 <= j < SLOTS && NodeOk(nodes', at', q)
      ensures SlotOk(nodes', at', q, j)
    {
      if q in at {
        assert NodeOk(nodes, at, q) && SlotOk(nodes, at, q, j);
        assert q + [j] == p + [i] <==> q == p && j == i by {
          assert (q + [j])[..|q|] == q && (p + [i])[..|p|] == p;
          assert (q + [j])[|q|] == j && (p + [i])[|p|] == i;
        }
      } else {
        assert (q + [j])[..|q|] == q;
      }
    }
  }

  /** The end of `radix_tree_insert`: the item goes into the empty slot of its leaf, and no other changes. */
  lemma Put(nodes: Nodes, at: Places, height: nat, path: seq<nat>, item: nat)
    requires Tree(nodes, at, height) && |path| == DEPTH && path[..5] in at && path[5] < SLOTS
    requires Item(nodes, at, path) == NULL
    ensures var nodes' := Filled(nodes, at, path[..5], path[5], item);
      && (Tree(nodes', at, height) <==> item != NULL)
      && Item(nodes', at, path) == item
      && forall q :: |q| == DEPTH && q[5] < SLOTS && q != path ==> Item(nodes', at, q) == Item(nodes, at, q)
  {
    var p, i := path[..5], path[5];
    var nodes' := Filled(nodes, at, p, i, item);
    assert NodeOk(nodes, at, p);
    UsedSet(nodes[at[p]].children, i, item);
    PutItems(nodes, at, height, path, item);
    hide Used, Shape;
    if item == NULL {
      assert !NodeOk(nodes', at, p);
    } else {
      forall q | q in at
        ensures NodeOk(nodes', at, q)
      {
        assert NodeOk(nodes, at, q);
      }
      forall q, j | q in at && |q| + 1 < DEPTH && 0 <= j < SLOTS
        ensures SlotOk(nodes', at, q, j)
      {
        assert SlotOk(nodes, at, q, j) && NodeOk(nodes', at, q);
      }
    }
  }

  lemma PutItems(nodes: Nodes, at: Places, height: nat, path: seq<nat>, item: nat)
    requires Tree(nodes, at, height) && |path| == DEPTH && path[..5] in at && path[5] < SLOTS
    ensures var nodes' := Filled(nodes, at, path[..5], path[5], item);
      && Item(nodes', at, path) == item
      && forall q :: |q| == DEPTH && q[5] < SLOTS && q != path ==> Item(nodes', at, q) == Item(nodes, at, q)
  {
    var p, i := path[..5], path[5];
    var nodes' := Filled(nodes, at, p, i, item);
    assert NodeOk(nodes, at, p);
    hide Used, Shape;
    forall q | |q| == DEPTH && q[5] < SLOTS && q != path
      ensures Item(nodes', at, q) == Item(nodes, at, q)
    {
      if q[..5] in at {
        assert NodeOk(nodes, at, q[..5]);
        if q[..5] == p {
          assert q == q[..5] + [q[5]] && path == p + [i];
        }
      }
    }
  }

  // ---------------------------------------------------------------- the tree

  datatype Error = Ok | EEXIST | ENOMEM

  ghost predicate Rooted(at: Places, height: nat, root: nat)
  {
    height <= DEPTH && if height > 0 then Zeros(DEPTH - height) in at && root == at[Zeros(DEPTH - height)]
      else root == NULL
  }

  /** All nodes are below the next address to be handed out. */
  ghost predicate Below(nodes: Nodes, unused: nat)
  {
    unused != NULL && forall n :: n in nodes ==> n < unused
  }

  /** `expand_tree` on values. */
  lemma GrowAll(nodes: Nodes, at: Places, height: nat, root: nat, f: nat)
    requires Tree(nodes, at, height) && Rooted(at, height, root) && Below(nodes, f) && height < DEPTH
    ensures var nodes', at' := nodes[f := Node(Zeros(SLOTS)[0 := root], if height > 0 then 1
      else 0)], at[Zeros(DEPTH - height - 1) := f];
      Tree(nodes', at', height + 1) && Rooted(at', height + 1, f) && Below(nodes', f + 1) &&
        SameItems(nodes, at, nodes', at')
  {
    Grow(nodes, at, height, f, root);
    hide Tree, SameItems;
  }

  /** `create_node` on values. */
  lemma CreateAll(nodes: Nodes, at: Places, height: nat, root: nat, p: seq<nat>, i: nat, f: nat)
    requires Tree(nodes, at, height) && Rooted(at, height, root) && Below(nodes, f)
    requires p in at && |p| + 1 < DEPTH && i < SLOTS && p + [i] !in at
    ensures at[p] in nodes && at[p] != f && i < |nodes[at[p]].children|
    ensures var nodes', at' := Filled(nodes, at, p, i, f)[f := EMPTY], at[p + [i] := f];
      Tree(nodes', at', height) && Rooted(at', height, root) && Below(nodes', f + 1) &&
        SameItems(nodes, at, nodes', at')
  {
    assert NodeOk(nodes, at, p);
    Create(nodes, at, height, p, i, f);
    hide Tree, SameItems;
  }

  /** The key's node `current` levels below the root, and the slot the key takes in it. */
  lemma Descend(nodes: Nodes, at: Places, height: nat, key: Key, current: nat)
    requires Tree(nodes, at, height) && current < height && Path(key)[..DEPTH - height + current] in at
    ensures var d, p := DEPTH - height + current, Path(key); var i, node := NextChild(height, current, key), at[p[..d]];
      && node in nodes && |nodes[node].children| == SLOTS && i < SLOTS && p[..d] + [i] == p[..d + 1]
      && (current + 1 < height ==> nodes[node].children[i] == if p[..d + 1] in at then at[p[..d + 1]] else NULL)
      && (current + 1 < height && p[..d + 1] in at ==> at[p[..d + 1]] != NULL)
      && i == p[d] && (current + 1 == height ==> d == 5 && nodes[node].children[i] == Item(nodes, at, p))
  {
    var d, p := DEPTH - height + current, Path(key);
    NextChildIsPath(height, current, key);
    hide NextChild, Path, Used;
    assert NodeOk(nodes, at, p[..d]);
    assert p[..d] + [p[d]] == p[..d + 1];
    if current + 1 < height {
      assert SlotOk(nodes, at, p[..d], p[d]);
      assert p[..d + 1] in at ==> NodeOk(nodes, at, p[..d + 1]);
    }
  }

  /** Without the node at some point of its path, a key has no item. */
  lemma Missing(nodes: Nodes, at: Places, height: nat, key: Key, n: nat)
    requires Tree(nodes, at, height) && DEPTH - height <= n <= 5 && Path(key)[..n] !in at
    ensures Path(key)[..5] !in at && Item(nodes, at, Path(key)) == NULL
  {
    var p := Path(key);
    hide Path;
    assert p[..5][..n] == p[..n];
    if p[..5] in at {
      Closed(at, height, p[..5], n);
    }
  }

  /** A key too large for the tree has no item. */
  lemma TooLarge(nodes: Nodes, at: Places, height: nat, key: Key)
    requires Tree(nodes, at, height) && (height == 0 || key > MaxKey(height))
    ensures Path(key)[..5] !in at && Item(nodes, at, Path(key)) == NULL
  {
    var p := Path(key);
    if height > 0 {
      FitsIff(height, key);
      assert p[..5][..DEPTH - height] == p[..DEPTH - height];
    }
  }

  /** The end of `radix_tree_insert` on values. */
  lemma PutAll(nodes: Nodes, at: Places, height: nat, key: Key, item: nat, unused: nat)
    requires Tree(nodes, at, height) && Path(key)[..5] in at
    requires Item(nodes, at, Path(key)) == NULL && Below(nodes, unused)
    ensures at[Path(key)[..5]] in nodes && Path(key)[5] < |nodes[at[Path(key)[..5]]].children|
    ensures var nodes' := Filled(nodes, at, Path(key)[..5], Path(key)[5], item);
      && (Tree(nodes', at, height) <==> item != NULL) && Below(nodes', unused)
      && forall k: Key :: Item(nodes', at, Path(k)) == if k == key then item else Item(nodes, at, Path(k))
  {
    assert NodeOk(nodes, at, Path(key)[..5]);
    Put(nodes, at, height, Path(key), item);
    hide Tree, Item, Used;
    var nodes' := Filled(nodes, at, Path(key)[..5], Path(key)[5], item);
    forall k: Key
      ensures Item(nodes', at, Path(k)) == if k == key then item else Item(nodes, at, Path(k))
    {
      if Path(k) == Path(key) {
        PathInjective(k, key);
      }
    }
  }

  // ---------------------------------------------------------------- what an insertion costs

  /** The least height from this one up, and at least 1, that a tree with the key has. */
  function Levels(height: nat, key: Key): nat
    requires height <= DEPTH
    decreases DEPTH - height
  {
    if height == DEPTH || (height > 0 && key <= MaxKey(height)) then height else Levels(height + 1, key)
  }

  /** How many nodes are missing on the path from length n on. */
  ghost function Gaps(at: Places, path: seq<nat>, n: nat): nat
    requires |path| == DEPTH
    decreases DEPTH - n
  {
    if n >= DEPTH then 0 else Gaps(at, path, n + 1) + if path[..n] in at then 0 else 1
  }

  /** New levels on top, and missing nodes on the way down from the root. */
  ghost function Cost(at: Places, height: nat, key: Key): nat
    requires height <= DEPTH
  {
    LevelsFit(height, key);
    var h := Levels(height, key);
    h - height + Gaps(at, Path(key), DEPTH - h + 1)
  }

  lemma {:induction false} LevelsFit(height: nat, key: Key)
    requires height <= DEPTH
    ensures var h := Levels(height, key);
      && height <= h <= DEPTH && h > 0 && key <= MaxKey(h)
      && forall i :: height <= i < h && i > 0 ==> key > MaxKey(i)
    decreases DEPTH - height
  {
    if height < DEPTH {
      LevelsFit(height + 1, key);
      hide MaxKey;
    }
  }

  lemma {:induction false} GapsBound(at: Places, path: seq<nat>, n: nat)
    requires |path| == DEPTH && n <= DEPTH
    ensures Gaps(at, path, n) <= DEPTH - n
    decreases DEPTH - n
  {
    if n < DEPTH { GapsBound(at, path, n + 1); }
  }

  /** No insertion takes more than 11 allocations. */
  lemma CostBound(at: Places, height: nat, key: Key)
    requires height <= DEPTH
    ensures Cost(at, height, key) < 2 * DEPTH
  {
    LevelsFit(height, key);
    GapsBound(at, Path(key), DEPTH - Levels(height, key) + 1);
  }

  lemma NoGaps(at: Places, path: seq<nat>)
    requires |path| == DEPTH
    ensures Gaps(at, path, DEPTH) == 0
  {
  }

  /** A node elsewhere fills no gap. */
  lemma {:induction false} GapsElsewhere(at: Places, path: seq<nat>, n: nat, p: seq<nat>, f: nat)
    requires |path| == DEPTH && forall d :: n <= d < DEPTH ==> path[..d] != p
    ensures Gaps(at[p := f], path, n) == Gaps(at, path, n)
    decreases DEPTH - n
  {
    if n < DEPTH { GapsElsewhere(at, path, n + 1, p, f); }
  }

  lemma CostTooLarge(at: Places, height: nat, key: Key)
    requires height < DEPTH && (height == 0 || key > MaxKey(height))
    ensures Cost(at, height, key) > 0
  {
    hide MaxKey, Path, Gaps;
    LevelsFit(height + 1, key);
  }

  /** In a tree that is high enough only nodes on the way down are missing. */
  lemma CostFits(at: Places, height: nat, key: Key)
    requires 0 < height <= DEPTH && key <= MaxKey(height)
    ensures Cost(at, height, key) == Gaps(at, Path(key), DEPTH - height + 1)
  {
  }

  /** A new root is one of the levels that were missing. */
  lemma CostGrow(at: Places, height: nat, key: Key, f: nat)
    requires height < DEPTH && (height == 0 || key > MaxKey(height))
    ensures Cost(at, height, key) == Cost(at[Zeros(DEPTH - height - 1) := f], height + 1, key) + 1
  {
    hide MaxKey, Path, Zeros, Gaps;
    LevelsFit(height, key);
    var h := Levels(height, key);
    var p, top := Path(key), Zeros(DEPTH - height - 1);
    forall d | DEPTH - h + 1 <= d < DEPTH
      ensures p[..d] != top
    {
      if d == |top| {
        FitsIff(h - 1, key);
        assert p[..d][..DEPTH - h + 1] == p[..DEPTH - h + 1];
        assert top[..DEPTH - h + 1] == Zeros(DEPTH - h + 1);
      }
    }
    GapsElsewhere(at, p, DEPTH - h + 1, top, f);
  }

  class RadixTree {
    var nodes: Nodes
    var root: nat
    var height: nat
    var maxKey: nat
    var unused: nat              // the next address kmem_alloc returns
    var budget: nat              // how many more allocations will succeed
    ghost var at: Places

    ghost predicate Valid()
      reads this
    {
      && Tree(nodes, at, height) && Rooted(at, height, root) && Below(nodes, unused)
      && (height > 0 ==> maxKey == MaxKey(height))
    }

    /** The allocations that inserting the key takes. */
    ghost function Needs(key: Key): nat
      requires height <= DEPTH
      reads this
    {
      Cost(at, height, key)
    }

    /** The map from keys to items that the tree stands for. */
    ghost function Get(key: Key): nat
      reads this
    {
      Item(nodes, at, Path(key))
    }

    /** `radix_tree_init` */
    constructor (grants: nat)
      ensures Valid() && height == 0 && budget == grants && forall k :: Get(k) == NULL
    {
      nodes, root, height, maxKey := map[], NULL, 0, 0;
      unused, budget, at := 1, grants, map[];
    }

    /** `expand_tree` */
    method Expand() returns (ok: bool)
      requires Valid() && height < DEPTH
      modifies this
      ensures Valid() && SameItems(old(nodes), old(at), nodes, at)
      ensures ok <==> old(budget) > 0
      ensures if ok then height == old(height) + 1 && budget == old(budget) - 1
        else height == old(height) && budget == old(budget) && at == old(at)
      ensures ok ==> at == old(at)[Zeros(DEPTH - height) := root]
    {
      hide Tree, Rooted, Below, SameItems, Zeros, MaxKey;
      if budget == 0 {
        SameSelf(nodes, at);
        return false;
      }
      var f := unused;
      GrowAll(nodes, at, height, root, f);
      nodes := nodes[f := Node(Zeros(SLOTS)[0 := root], if height > 0 then 1 else 0)];
      at := at[Zeros(DEPTH - height - 1) := f];
      unused, budget, root, height := unused + 1, budget - 1, f, height + 1;
      maxKey := MaxKey(height);
      return true;
    }

    /** `create_node` below the node at prefix `p`. */
    method CreateNode(node: nat, index: nat, ghost p: seq<nat>) returns (ok: bool)
      requires Valid() && p in at && node == at[p] && |p| + 1 < DEPTH && index < SLOTS && p + [index] !in at
      modifies this
      ensures Valid() && SameItems(old(nodes), old(at), nodes, at)
      ensures height == old(height) && maxKey == old(maxKey) && root == old(root)
      ensures ok <==> old(budget) > 0
      ensures if ok then p + [index] in at && at == old(at)[p + [index] := at[p + [index]]] else at == old(at)
      ensures budget == if ok then old(budget) - 1 else old(budget)
      ensures ok ==> node in nodes && index < |nodes[node].children| && nodes[node].children[index] == at[p + [index]]
    {
      hide Tree, Rooted, Below, SameItems, MaxKey;
      if budget == 0 {
        SameSelf(nodes, at);
        return false;
      }
      var f := unused;
      CreateAll(nodes, at, height, root, p, index, f);
      nodes := nodes[node := Node(nodes[node].children[index := f], nodes[node].count + 1)][f := EMPTY];
      at := at[p + [index] := f];
      unused, budget := unused + 1, budget - 1;
      return true;
    }

    /** `radix_item_info_lookup` and `radix_tree_lookup`: the descent finds the item the key maps to; `found`
        says that its leaf exists. */
    method Lookup(key: Key) returns (found: bool, item: nat)
      requires Valid()
      ensures item == Get(key)
      ensures found <==> Path(key)[..5] in at
    {
      hide Tree, Path, NextChild, Item;
      if root == NULL || key > maxKey {
        RootNull(nodes, at, height, root);
        TooLarge(nodes, at, height, key);
        return false, NULL;
      }
      RootNull(nodes, at, height, root);
      FitsIff(height, key);
      var current, node := 0, root;
      while current + 1 < height
        invariant current < height
        invariant Path(key)[..DEPTH - height + current] in at && node == at[Path(key)[..DEPTH - height + current]]
      {
        Descend(nodes, at, height, key, current);
        node := nodes[node].children[NextChild(height, current, key)];
        if node == NULL {
          Missing(nodes, at, height, key, DEPTH - height + current + 1);
          return false, NULL;
        }
        current := current + 1;
      }
      Descend(nodes, at, height, key, current);
      return true, nodes[node].children[NextChild(height, current, key)];
    }

    /** The first loop of `radix_tree_insert`. */
    method ExpandFor(key: Key) returns (ok: bool)
      requires Valid()
      modifies this
      ensures Valid() && SameItems(old(nodes), old(at), nodes, at)
      ensures if ok then height > 0 && key <= maxKey else budget == 0 && Needs(key) > 0 && (height == 0 || key > maxKey)
      ensures height <= DEPTH && old(height) <= DEPTH && budget + old(Needs(key)) == Needs(key) + old(budget)
    {
      hide Tree, Path, Item, SameItems, Rooted, Below, MaxKey, Cost, Zeros;
      SameSelf(nodes, at);
      RootNull(nodes, at, height, root);
      while height == 0 || maxKey < key
        invariant Valid() && SameItems(old(nodes), old(at), nodes, at) && height <= DEPTH
        invariant budget + old(Needs(key)) == Needs(key) + old(budget)
        decreases DEPTH - height
      {
        ghost var n, a, h := nodes, at, height;
        LevelsFit(height, key);
        ok := Expand();
        if ok {
          CostGrow(a, h, key, root);
        }
        SameTwice(old(nodes), old(at), n, a, nodes, at);
        if !ok {
          CostTooLarge(at, height, key);
          return false;
        }
      }
      return true;
    }

    /** One level further down towards the leaf of the key, over a new node if there is none. */
    method Deeper(key: Key, current: nat, node: nat) returns (child: nat)
      requires Valid() && current + 1 < height && Path(key)[..DEPTH - height + current] in at
      requires node == at[Path(key)[..DEPTH - height + current]]
      modifies this
      ensures Valid() && SameItems(old(nodes), old(at), nodes, at) && height == old(height) && maxKey == old(maxKey)
      ensures var p, d := Path(key), DEPTH - height + current + 1;
        if child == NULL then budget == 0 == old(budget) && Get(key) == NULL && Gaps(at, p, d) > 0 && at == old(at)
        else
          && p[..d] in at && child == at[p[..d]]
          && budget + Gaps(old(at), p, d) == Gaps(at, p, d + 1) + old(budget)
    {
      hide Tree, Path, NextChild, Item, SameItems, MaxKey, Below;
      ghost var d := DEPTH - height + current;
      var next := NextChild(height, current, key);
      Descend(nodes, at, height, key, current);
      child := nodes[node].children[next];
      if child == NULL {
        var ok := CreateNode(node, next, Path(key)[..d]);
        if !ok {
          Missing(nodes, at, height, key, d + 1);
          return NULL;
        }
        child := nodes[node].children[next];
        Descend(nodes, at, height, key, current);
        GapsElsewhere(old(at), Path(key), d + 2, Path(key)[..d + 1], child);
      } else {
        SameSelf(nodes, at);
      }
    }

    /** The second loop of `radix_tree_insert`: down to the leaf of the key, creating nodes as needed. */
    method ReachLeaf(key: Key) returns (leaf: nat)
      requires Valid() && height > 0 && key <= maxKey
      modifies this
      ensures Valid() && SameItems(old(nodes), old(at), nodes, at) && height == old(height)
      ensures var n := Gaps(old(at), Path(key), DEPTH - height + 1);
        if leaf == NULL then budget == 0 && Get(key) == NULL && old(budget) < n else budget == old(budget) - n
      ensures leaf != NULL ==> Path(key)[..5] in at && leaf == at[Path(key)[..5]]
    {
      hide Tree, Path, NextChild, Item, SameItems, MaxKey, Gaps;
      FitsIff(height, key);
      RootNull(nodes, at, height, root);
      SameSelf(nodes, at);
      hide Rooted, Below;
      var current, node := 0, root;
      while current + 1 < height
        invariant Valid() && SameItems(old(nodes), old(at), nodes, at)
        invariant height == old(height) && current < height <= DEPTH
        invariant var p, d := Path(key), DEPTH - height + 1;
          budget + Gaps(old(at), p, d) == Gaps(at, p, d + current) + old(budget)
        invariant Path(key)[..DEPTH - height + current] in at
        invariant node == at[Path(key)[..DEPTH - height + current]] && node != NULL
      {
        ghost var n, a := nodes, at;
        node := Deeper(key, current, node);
        SameTwice(old(nodes), old(at), n, a, nodes, at);
        if node == NULL {
          return NULL;
        }
        current := current + 1;
      }
      NoGaps(at, Path(key));
      return node;
    }

    /** `radix_tree_insert`: exactly one binding more, or, with an error, none. A NULL item is entered and
        counted, though it is no child: then the count of its leaf is wrong. */
    method Insert(key: Key, item: nat) returns (err: Error)
      requires Valid()
      modifies this
      ensures err == EEXIST <==> old(Get(key)) != NULL
      ensures err != Ok ==> Valid() && forall k :: Get(k) == old(Get(k))
      ensures err == Ok ==> forall k :: Get(k) == if k == key then item else old(Get(k))
      ensures err == Ok ==> (Valid() <==> item != NULL)
      ensures old(height) <= DEPTH && (err == ENOMEM <==> old(Needs(key)) > old(budget))
      ensures budget == if err == ENOMEM then 0 else old(budget) - old(Needs(key))
    {
      hide Tree, Path, NextChild, Item, MaxKey, Rooted, Below, Filled, Cost, Gaps;
      var ok := ExpandFor(key);
      if !ok {
        TooLarge(nodes, at, height, key);
        return ENOMEM;
      }
      CostFits(at, height, key);
      var leaf := ReachLeaf(key);
      if leaf == NULL {
        return ENOMEM;
      }
      var next := NextChild(height, height - 1, key);
      Descend(nodes, at, height, key, height - 1);
      if nodes[leaf].children[next] != NULL {
        return EEXIST;
      }
      Enter(key, leaf, next, item);
      return Ok;
    }

    /** The end of `radix_tree_insert`. */
    method Enter(key: Key, leaf: nat, next: nat, item: nat)
      requires Valid() && Path(key)[..5] in at && leaf == at[Path(key)[..5]] && next == Path(key)[5] && Get(key) == NULL
      modifies this`nodes
      ensures forall k :: Get(k) == if k == key then item else old(Get(k))
      ensures Valid() <==> item != NULL
    {
      hide Tree, Path, Item, MaxKey, Rooted, Below;
      PutAll(nodes, at, height, key, item, unused);
      nodes := nodes[leaf := Node(nodes[leaf].children[next := item], nodes[leaf].count + 1)];
    }
  }

  lemma RootNull(nodes: Nodes, at: Places, height: nat, root: nat)
    requires Tree(nodes, at, height) && Rooted(at, height, root)
    ensures height <= DEPTH && (root == NULL <==> height == 0)
    ensures height > 0 ==> Zeros(DEPTH - height) in at && root == at[Zeros(DEPTH - height)]
  {
    if height > 0 {
      assert NodeOk(nodes, at, Zeros(DEPTH - height));
    }
  }

  lemma SameSelf(nodes: Nodes, at: Places)
    ensures SameItems(nodes, at, nodes, at)
  {
  }

  /** A NULL item inserted into an empty tree: the count of its leaf is wrong. */
  method NullInsert() returns (tree: RadixTree, err: Error)
    ensures fresh(tree) && err == Ok && !tree.Valid()
  {
    tree := new RadixTree(2 * DEPTH);
    CostBound(tree.at, 0, 5);
    err := tree.Insert(5, NULL);
  }
}
