/**
 * The traversals of pnode.py's scene graph. `do_tick_recursive` visits the
 * nodes breadth-first with a queue; `do_update_recursive` collects them
 * depth-first in pre-order with a stack, adding up positions and z-indices
 * along the path, and paints them in descending z-index with a stable sort.
 */
module SceneTree {
  import opened Nodes

  /** A node with its own offset and z-index, and its sub-nodes in order. */
  datatype Tree = Node(id: NodeId, x: real, y: real, z: int, children: seq<Tree>)

  /** The number of nodes in a tree. */
  function Size(t: Tree): (n: nat)
    ensures n >= 1
    decreases t
  {
    1 + ForestSize(t.children)
  }

  /** The number of nodes in a sequence of trees. */
  function ForestSize(ts: seq<Tree>): nat
    decreases ts
  {
    if |ts| == 0 then 0 else Size(ts[0]) + ForestSize(ts[1..])
  }

  lemma {:induction false} ForestSizeConcat(a: seq<Tree>, b: seq<Tree>)
    ensures ForestSize(a + b) == ForestSize(a) + ForestSize(b)
    decreases |a|
  {
    if |a| > 0 {
      assert (a + b)[0] == a[0] && (a + b)[1..] == a[1..] + b;
      ForestSizeConcat(a[1..], b);
    } else {
      assert a + b == b;
    }
  }

  /** The identities of a sequence of trees' roots. */
  function Ids(ts: seq<Tree>): (r: seq<NodeId>)
    ensures |r| == |ts|
  {
    if |ts| == 0 then [] else [ts[0].id] + Ids(ts[1..])
  }

  /** All sub-nodes of a sequence of trees, in order: the next level down. */
  function Kids(ts: seq<Tree>): seq<Tree> {
    if |ts| == 0 then [] else ts[0].children + Kids(ts[1..])
  }

  /** Pre-order: a node, then each sub-tree in turn. */
  function PreOrder(t: Tree): (r: seq<NodeId>)
    ensures |r| == Size(t)
    decreases t
  {
    [t.id] + PreForest(t.children)
  }

  function PreForest(ts: seq<Tree>): (r: seq<NodeId>)
    ensures |r| == ForestSize(ts)
    decreases ts
  {
    if |ts| == 0 then [] else PreOrder(ts[0]) + PreForest(ts[1..])
  }

  lemma {:induction false} PreForestConcat(a: seq<Tree>, b: seq<Tree>)
    ensures PreForest(a + b) == PreForest(a) + PreForest(b)
    decreases |a|
  {
    if |a| > 0 {
      assert (a + b)[0] == a[0] && (a + b)[1..] == a[1..] + b;
      PreForestConcat(a[1..], b);
    } else {
      assert a + b == b;
    }
  }

  /** Taking the first tree off a queue and appending its sub-trees leaves one node fewer. */
  lemma QueueStep(q: seq<Tree>)
    requires |q| > 0
    ensures ForestSize(q[1..] + q[0].children) == ForestSize(q) - 1
  {
    ForestSizeConcat(q[1..], q[0].children);
  }

  /**
   * The order a queue of nodes is processed in: take the first, append its
   * sub-nodes at the back.
   */
  function BfsOf(q: seq<Tree>): (r: seq<NodeId>)
    decreases ForestSize(q)
  {
    if |q| == 0 then []
    else
      QueueStep(q);
      [q[0].id] + BfsOf(q[1..] + q[0].children)
  }

  /** Processing `a` ahead of `b` emits `a`'s roots and leaves `b` followed by their sub-nodes. */
  lemma {:induction false} BfsSplit(a: seq<Tree>, b: seq<Tree>)
    ensures BfsOf(a + b) == Ids(a) + BfsOf(b + Kids(a))
    decreases |a|
  {
    if |a| == 0 {
      assert a + b == b && b + Kids(a) == b;
    } else {
      var a0 := a[0];
      assert (a + b)[0] == a0 && (a + b)[1..] == a[1..] + b;
      assert a[1..] + b + a0.children == a[1..] + (b + a0.children);
      BfsSplit(a[1..], b + a0.children);
      assert b + Kids(a) == b + a0.children + Kids(a[1..]);
    }
  }

  /** The queue order is level order: a whole level is ticked before anything in the next. */
  lemma LevelByLevel(q: seq<Tree>)
    ensures BfsOf(q) == Ids(q) + BfsOf(Kids(q))
  {
    BfsSplit(q, []);
    assert q + [] == q && [] + Kids(q) == Kids(q);
  }

  /** The queue order visits every node exactly once: it is a permutation of pre-order. */
  lemma {:induction false} BfsPermutesPreOrder(q: seq<Tree>)
    ensures multiset(BfsOf(q)) == multiset(PreForest(q))
    decreases ForestSize(q)
  {
    if |q| > 0 {
      QueueStep(q);
      BfsPermutesPreOrder(q[1..] + q[0].children);
      PreForestConcat(q[1..], q[0].children);
    }
  }

  /**
   * `do_tick_recursive`: the order in which the nodes' `do_tick` runs. The
   * root comes first, then its sub-nodes level by level.
   */
  method TickOrder(t: Tree) returns (order: seq<NodeId>)
    ensures order == BfsOf([t])
    ensures order == [t.id] + BfsOf(t.children)
    ensures multiset(order) == multiset(PreOrder(t))
  {
    var queue := [t];
    order := [];
    while |queue| > 0
      invariant order + BfsOf(queue) == BfsOf([t])
      decreases ForestSize(queue)
    {
      var cur := queue[0];
      BfsStep(queue);
      queue := queue[1..] + cur.children;
      order := order + [cur.id];
    }
    BfsRoot(t);
  }

  /** One turn of the queue loop: the first node is emitted and its sub-nodes join the back. */
  lemma BfsStep(q: seq<Tree>)
    requires |q| > 0
    ensures BfsOf(q) == [q[0].id] + BfsOf(q[1..] + q[0].children)
    ensures ForestSize(q[1..] + q[0].children) < ForestSize(q)
  {
    QueueStep(q);
  }

  /** Starting from the root alone: the root comes first and every node appears once. */
  lemma BfsRoot(t: Tree)
    ensures BfsOf([t]) == [t.id] + BfsOf(t.children)
    ensures multiset(BfsOf([t])) == multiset(PreOrder(t))
  {
    assert [t][1..] + t.children == t.children;
    BfsPermutesPreOrder([t]);
    assert PreForest([t]) == PreOrder(t) + PreForest([]);
  }

  /** A node as `do_update_recursive` paints it: its absolute position and accumulated z-index. */
  datatype Item = Item(id: NodeId, x: real, y: real, z: int)

  /** The paint items of a tree under an ancestor offset `(x, y)` and ancestor z-index `z`, in pre-order. */
  function Items(t: Tree, x: real, y: real, z: int): (r: seq<Item>)
    ensures |r| == Size(t)
    ensures r[0] == Item(t.id, x + t.x, y + t.y, z + t.z)
    decreases t
  {
    [Item(t.id, x + t.x, y + t.y, z + t.z)] + ForestItems(t.children, x + t.x, y + t.y, z + t.z)
  }

  function ForestItems(ts: seq<Tree>, x: real, y: real, z: int): (r: seq<Item>)
    ensures |r| == ForestSize(ts)
    decreases ts
  {
    if |ts| == 0 then [] else Items(ts[0], x, y, z) + ForestItems(ts[1..], x, y, z)
  }

  /**
   * The list `do_update_recursive` builds from the root drawn at `(x, y)`.
   * The root enters with its own z-index as the inherited one and adds it
   * again, so its z-index counts twice for the whole tree.
   */
  function PaintList(root: Tree, x: real, y: real): (r: seq<Item>)
    ensures |r| == Size(root)
    ensures r[0] == Item(root.id, x + root.x, y + root.y, 2 * root.z)
  {
    Items(root, x, y, root.z)
  }

  /** The identities in the paint list are the pre-order of the tree. */
  lemma {:induction false} ItemIdsPreOrder(t: Tree, x: real, y: real, z: int)
    ensures forall i :: 0 <= i < Size(t) ==> Items(t, x, y, z)[i].id == PreOrder(t)[i]
    decreases t, 1
  {
    ForestIdsPreOrder(t.children, x + t.x, y + t.y, z + t.z);
  }

  lemma {:induction false} ForestIdsPreOrder(ts: seq<Tree>, x: real, y: real, z: int)
    ensures forall i :: 0 <= i < ForestSize(ts) ==> ForestItems(ts, x, y, z)[i].id == PreForest(ts)[i]
    decreases ts, 0
  {
    if |ts| > 0 {
      ItemIdsPreOrder(ts[0], x, y, z);
      ForestIdsPreOrder(ts[1..], x, y, z);
    }
  }

  /** The `k`-th sub-node is painted after the nodes before it, at its parent's position and z-index plus its own. */
  lemma ChildZ(t: Tree, x: real, y: real, z: int, k: nat)
    requires k < |t.children|
    ensures var c := t.children[k];
            var it := Items(t, x, y, z);
            var i := 1 + ForestSize(t.children[..k]);
            i < |it| && it[i] == Item(c.id, x + t.x + c.x, y + t.y + c.y, z + t.z + c.z)
  {
    var it := Items(t, x, y, z);
    var c := t.children[k];
    var i := 1 + ForestSize(t.children[..k]);
    ChildItemAt(t.children, x + t.x, y + t.y, z + t.z, k);
    assert it[i] == ForestItems(t.children, x + t.x, y + t.y, z + t.z)[i - 1];
    assert it[i] == Item(c.id, x + t.x + c.x, y + t.y + c.y, z + t.z + c.z);
    assert |it| == Size(t) == 1 + ForestSize(t.children);
  }

  lemma {:induction false} ChildItemAt(ts: seq<Tree>, x: real, y: real, z: int, k: nat)
    requires k < |ts|
    ensures ForestSize(ts[..k]) < ForestSize(ts)
    ensures ForestItems(ts, x, y, z)[ForestSize(ts[..k])] == Item(ts[k].id, x + ts[k].x, y + ts[k].y, z + ts[k].z)
    decreases k
  {
    if k == 0 {
      assert ts[..0] == [];
    } else {
      ChildItemAt(ts[1..], x, y, z, k - 1);
      assert ts[1..][..k - 1] == ts[..k][1..];
      assert ts[1..][k - 1] == ts[k];
    }
  }

  /** A pending stack entry of `do_update_recursive`: a sub-tree and what it inherits. */
  datatype Frame = Frame(t: Tree, x: real, y: real, z: int)

  /** The paint items still to come from a stack. */
  function StackItems(fs: seq<Frame>): (r: seq<Item>)
  {
    if |fs| == 0 then [] else Items(fs[0].t, fs[0].x, fs[0].y, fs[0].z) + StackItems(fs[1..])
  }

  /** The number of nodes still to visit on a stack. */
  function StackSize(fs: seq<Frame>): nat {
    if |fs| == 0 then 0 else Size(fs[0].t) + StackSize(fs[1..])
  }

  /** The stack entries for a node's sub-nodes. */
  function Frames(ts: seq<Tree>, x: real, y: real, z: int): (r: seq<Frame>)
    ensures |r| == |ts|
    ensures forall i :: 0 <= i < |ts| ==> r[i] == Frame(ts[i], x, y, z)
  {
    if |ts| == 0 then [] else [Frame(ts[0], x, y, z)] + Frames(ts[1..], x, y, z)
  }

  /** Pushing a node's sub-nodes puts their items ahead of the rest of the stack. */
  lemma {:induction false} PushFrames(ts: seq<Tree>, x: real, y: real, z: int, rest: seq<Frame>)
    ensures StackItems(Frames(ts, x, y, z) + rest) == ForestItems(ts, x, y, z) + StackItems(rest)
    ensures StackSize(Frames(ts, x, y, z) + rest) == ForestSize(ts) + StackSize(rest)
    decreases |ts|
  {
    if |ts| > 0 {
      var fs := Frames(ts, x, y, z) + rest;
      assert fs[0] == Frame(ts[0], x, y, z);
      assert fs[1..] == Frames(ts[1..], x, y, z) + rest;
      PushFrames(ts[1..], x, y, z, rest);
    } else {
      assert Frames(ts, x, y, z) + rest == rest;
    }
  }

  /** `do_update_recursive`'s first loop: the paint list, gathered with an explicit stack. */
  method CollectPaint(root: Tree, x: real, y: real) returns (items: seq<Item>)
    ensures items == PaintList(root, x, y)
  {
    var stack := [Frame(root, x, y, root.z)];
    items := [];
    assert StackItems(stack) == PaintList(root, x, y) + StackItems([]);
    while |stack| > 0
      invariant items + StackItems(stack) == PaintList(root, x, y)
      decreases StackSize(stack)
    {
      PopFrame(stack);
      PopFrameSize(stack);
      items := items + [Emit(stack[0])];
      stack := Pushed(stack[0], stack[1..]);
    }
  }

  /** The item a popped frame emits. */
  function Emit(f: Frame): Item {
    Item(f.t.id, f.x + f.t.x, f.y + f.t.y, f.z + f.t.z)
  }

  /** The stack after popping `f`: its sub-nodes, inheriting `f`'s item, ahead of the rest. */
  function Pushed(f: Frame, rest: seq<Frame>): seq<Frame> {
    var e := Emit(f);
    Frames(f.t.children, e.x, e.y, e.z) + rest
  }

  /** Popping a frame emits its node and pushes its sub-nodes in its place. */
  lemma {:induction false} PopFrame(fs: seq<Frame>)
    requires |fs| > 0
    ensures StackItems(fs) == [Emit(fs[0])] + StackItems(Pushed(fs[0], fs[1..]))
  {
    var f := fs[0];
    var e := Emit(f);
    var kids := ForestItems(f.t.children, e.x, e.y, e.z);
    PushFrames(f.t.children, e.x, e.y, e.z, fs[1..]);
    ItemsEmit(f);
    assert StackItems(fs) == [e] + kids + StackItems(fs[1..]);
    assert [e] + kids + StackItems(fs[1..]) == [e] + (kids + StackItems(fs[1..]));
  }

  /** A frame's items are its own item followed by those of its sub-nodes. */
  lemma ItemsEmit(f: Frame)
    ensures var e := Emit(f);
            Items(f.t, f.x, f.y, f.z) == [e] + ForestItems(f.t.children, e.x, e.y, e.z)
  {
  }

  /** Popping a frame leaves one node fewer to visit. */
  lemma {:induction false} PopFrameSize(fs: seq<Frame>)
    requires |fs| > 0
    ensures StackSize(Pushed(fs[0], fs[1..])) < StackSize(fs)
  {
    var e := Emit(fs[0]);
    PushFrames(fs[0].t.children, e.x, e.y, e.z, fs[1..]);
  }

  /** Painted before every item with a lower z-index. */
  predicate SortedDesc(s: seq<Item>) {
    forall i, j :: 0 <= i < j < |s| ==> s[i].z >= s[j].z
  }

  /** The items at z-index `v`, in order. */
  function AtZ(s: seq<Item>, v: int): (r: seq<Item>)
    ensures |r| <= |s|
  {
    if |s| == 0 then [] else (if s[0].z == v then [s[0]] else []) + AtZ(s[1..], v)
  }

  /** Insert `it` ahead of the first item whose z-index is not higher. */
  function InsertDesc(it: Item, s: seq<Item>): (r: seq<Item>)
    ensures multiset(r) == multiset(s) + multiset{it}
    ensures |r| == |s| + 1
    ensures r[0] == it || (|s| > 0 && r[0] == s[0])
  {
    if |s| == 0 || it.z >= s[0].z then [it] + s
    else
      var t := InsertDesc(it, s[1..]);
      assert [s[0]] + s[1..] == s;
      [s[0]] + t
  }

  /** Inserting into a descending list keeps it descending. */
  lemma {:induction false} InsertKeepsSorted(it: Item, s: seq<Item>)
    requires SortedDesc(s)
    ensures SortedDesc(InsertDesc(it, s))
  {
    if |s| > 0 && it.z < s[0].z {
      InsertKeepsSorted(it, s[1..]);
    }
  }

  /** Inserting keeps the items of every z-index in their order, with `it` ahead of its equals. */
  lemma {:induction false} InsertStable(it: Item, s: seq<Item>, v: int)
    ensures AtZ(InsertDesc(it, s), v) == AtZ([it] + s, v)
  {
    var r := InsertDesc(it, s);
    if |s| == 0 || it.z >= s[0].z {
    } else {
      var t := InsertDesc(it, s[1..]);
      InsertStable(it, s[1..], v);
      assert r == [s[0]] + t && r[1..] == t;
      assert ([it] + s)[0] == it && ([it] + s)[1..] == s;
      assert ([it] + s[1..])[0] == it && ([it] + s[1..])[1..] == s[1..];
    }
  }

  /** `queue.sort(key=lambda tup: -tup[3])`: descending z-index, stable. */
  function SortDesc(s: seq<Item>): (r: seq<Item>)
    ensures multiset(r) == multiset(s)
    ensures SortedDesc(r)
  {
    if |s| == 0 then []
    else
      var t := SortDesc(s[1..]);
      assert [s[0]] + s[1..] == s;
      InsertKeepsSorted(s[0], t);
      InsertDesc(s[0], t)
  }

  /** The sort is stable: the items of each z-index keep their order. */
  lemma {:induction false} SortStable(s: seq<Item>, v: int)
    ensures AtZ(SortDesc(s), v) == AtZ(s, v)
  {
    if |s| > 0 {
      var t := SortDesc(s[1..]);
      SortStable(s[1..], v);
      InsertStable(s[0], t, v);
      assert ([s[0]] + t)[0] == s[0] && ([s[0]] + t)[1..] == t;
    }
  }

  /** The order `do_update_recursive` paints in: z-index descending, ties in pre-order. */
  function PaintOrder(root: Tree, x: real, y: real): (r: seq<Item>)
    ensures multiset(r) == multiset(PaintList(root, x, y))
    ensures SortedDesc(r)
  {
    SortDesc(PaintList(root, x, y))
  }

  /** Nodes painted at the same z-index are painted in pre-order. */
  lemma PaintTiesPreOrder(root: Tree, x: real, y: real, v: int)
    ensures AtZ(PaintOrder(root, x, y), v) == AtZ(PaintList(root, x, y), v)
  {
    SortStable(PaintList(root, x, y), v);
  }
}
