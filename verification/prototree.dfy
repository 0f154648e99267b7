/**
 * The scene-graph walks of the bomberman prototype. bomberman/pnode.py
 * paints breadth-first from a queue of (node, offset) pairs; the earlier
 * bomberman/main.py recurses depth-first, calling each node's hook only
 * when the node has it enabled but always descending into the sub-nodes.
 */
module ProtoTree {
  import opened Nodes
  import opened SceneTree
  import Seqs

  /** The number of nodes under a sequence of frames, added up across a concatenation. */
  lemma {:induction false} StackSizeConcat(a: seq<Frame>, b: seq<Frame>)
    ensures StackSize(a + b) == StackSize(a) + StackSize(b)
    decreases |a|
  {
    if |a| > 0 {
      assert (a + b)[0] == a[0] && (a + b)[1..] == a[1..] + b;
      StackSizeConcat(a[1..], b);
    } else {
      assert a + b == b;
    }
  }

  /** The paint items of a sequence of frames, split across a concatenation. */
  lemma {:induction false} StackItemsConcat(a: seq<Frame>, b: seq<Frame>)
    ensures StackItems(a + b) == StackItems(a) + StackItems(b)
    decreases |a|
  {
    if |a| > 0 {
      assert (a + b)[0] == a[0] && (a + b)[1..] == a[1..] + b;
      StackItemsConcat(a[1..], b);
    } else {
      assert a + b == b;
    }
  }

  /** The frames of a node's sub-nodes hold exactly the items of those sub-trees. */
  lemma ChildFrames(ts: seq<Tree>, x: real, y: real, z: int)
    ensures StackItems(Frames(ts, x, y, z)) == ForestItems(ts, x, y, z)
    ensures StackSize(Frames(ts, x, y, z)) == ForestSize(ts)
  {
    PushFrames(ts, x, y, z, []);
    assert Frames(ts, x, y, z) + [] == Frames(ts, x, y, z);
  }

  /** The item a frame paints: the node at its parent's offset plus its own. */
  function Painted(f: Frame): (it: Item)
    ensures it.id == f.t.id
  {
    Item(f.t.id, f.x + f.t.x, f.y + f.t.y, f.z + f.t.z)
  }

  /** The queue after one step: the front frame gone, its sub-nodes' frames appended at the back. */
  function Dequeue(q: seq<Frame>): (r: seq<Frame>)
    requires |q| > 0
    ensures StackSize(r) == StackSize(q) - 1
  {
    var it := Painted(q[0]);
    var r := q[1..] + Frames(q[0].t.children, it.x, it.y, it.z);
    StackSizeConcat(q[1..], Frames(q[0].t.children, it.x, it.y, it.z));
    ChildFrames(q[0].t.children, it.x, it.y, it.z);
    r
  }

  /** The items a queue of frames paints, in queue order. */
  function BfsItems(q: seq<Frame>): (r: seq<Item>)
    decreases StackSize(q)
  {
    if |q| == 0 then [] else [Painted(q[0])] + BfsItems(Dequeue(q))
  }

  /** The identities of a sequence of items. */
  function ItemIds(s: seq<Item>): (r: seq<NodeId>)
    ensures |r| == |s|
    ensures forall i :: 0 <= i < |s| ==> r[i] == s[i].id
  {
    if |s| == 0 then [] else [s[0].id] + ItemIds(s[1..])
  }

  /** The trees of a sequence of frames. */
  function Trees(q: seq<Frame>): (r: seq<Tree>)
    ensures |r| == |q|
    ensures forall i :: 0 <= i < |q| ==> r[i] == q[i].t
  {
    if |q| == 0 then [] else [q[0].t] + Trees(q[1..])
  }

  /** Frames of a forest hold the forest's trees. */
  lemma FramesTrees(ts: seq<Tree>, x: real, y: real, z: int)
    ensures Trees(Frames(ts, x, y, z)) == ts
  {
  }

  /** Dequeuing drops the front tree and appends its sub-trees. */
  lemma DequeueTrees(q: seq<Frame>)
    requires |q| > 0
    ensures Trees(Dequeue(q)) == Trees(q[1..]) + q[0].t.children
  {
    var it := Painted(q[0]);
    var kids := Frames(q[0].t.children, it.x, it.y, it.z);
    FramesTrees(q[0].t.children, it.x, it.y, it.z);
    TreesConcat(q[1..], kids);
  }

  lemma {:induction false} TreesConcat(a: seq<Frame>, b: seq<Frame>)
    ensures Trees(a + b) == Trees(a) + Trees(b)
  {
    var l := Trees(a + b);
    var r := Trees(a) + Trees(b);
    assert |l| == |r|;
    forall i | 0 <= i < |l| ensures l[i] == r[i] {
      if i < |a| { assert (a + b)[i] == a[i]; } else { assert (a + b)[i] == b[i - |a|]; }
    }
  }

  /** Dequeuing trades the front frame's items for its own item plus its sub-trees' items at the back. */
  lemma DequeueItems(q: seq<Frame>)
    requires |q| > 0
    ensures var it := Painted(q[0]);
            StackItems(Dequeue(q)) == StackItems(q[1..]) + ForestItems(q[0].t.children, it.x, it.y, it.z)
  {
    var f := q[0];
    var it := Painted(f);
    var kids := Frames(f.t.children, it.x, it.y, it.z);
    assert Dequeue(q) == q[1..] + kids;
    StackItemsConcat(q[1..], kids);
    ChildFrames(f.t.children, it.x, it.y, it.z);
  }

  /** The front frame's items come first on a stack: its own item, then its sub-trees'. */
  lemma FrontItems(q: seq<Frame>)
    requires |q| > 0
    ensures var it := Painted(q[0]);
            StackItems(q) == [it] + ForestItems(q[0].t.children, it.x, it.y, it.z) + StackItems(q[1..])
  {
    var f := q[0];
    var it := Painted(f);
    var fi := ForestItems(f.t.children, it.x, it.y, it.z);
    assert Items(f.t, f.x, f.y, f.z) == [it] + fi by {
      ItemsUnfold(f.t, f.x, f.y, f.z);
    }
    assert StackItems(q) == Items(f.t, f.x, f.y, f.z) + StackItems(q[1..]);
  }

  /** A tree's items: its own item, then its sub-trees' items under its offset. */
  lemma ItemsUnfold(t: Tree, x: real, y: real, z: int)
    ensures Items(t, x, y, z) == [Item(t.id, x + t.x, y + t.y, z + t.z)] + ForestItems(t.children, x + t.x, y + t.y, z + t.z)
  {
  }

  /** The painting order is the tick order: the identities come out breadth-first. */
  lemma {:induction false} BfsItemIds(q: seq<Frame>)
    ensures ItemIds(BfsItems(q)) == BfsOf(Trees(q))
    decreases StackSize(q)
  {
    if |q| > 0 {
      var it := Painted(q[0]);
      var r := Dequeue(q);
      assert BfsItems(q) == [it] + BfsItems(r);
      BfsItemIds(r);
      DequeueTrees(q);
      var tq := Trees(q);
      assert tq[0] == q[0].t && tq[1..] == Trees(q[1..]);
      assert BfsOf(tq) == [q[0].t.id] + BfsOf(tq[1..] + tq[0].children);
      var ids := ItemIds([it] + BfsItems(r));
      assert ids == [it.id] + ItemIds(BfsItems(r));
    }
  }

  /**
   * Breadth-first painting paints the same items — each node once, at the
   * same accumulated offset — as the depth-first order does.
   */
  lemma {:induction false} BfsPaintsStackItems(q: seq<Frame>)
    ensures multiset(BfsItems(q)) == multiset(StackItems(q))
    decreases StackSize(q)
  {
    if |q| > 0 {
      var it := Painted(q[0]);
      var r := Dequeue(q);
      assert BfsItems(q) == [it] + BfsItems(r);
      BfsPaintsStackItems(r);
      DequeueItems(q);
      FrontItems(q);
    }
  }

  /**
   * `do_update_recursive` of bomberman/pnode.py, painting part: nodes are
   * taken from the front of a queue, painted at their parent's offset plus
   * their own, and their sub-nodes queued at the back with the new offset.
   */
  method ProtoPaint(root: Tree, x: real, y: real) returns (items: seq<Item>)
    ensures items == BfsItems([Frame(root, x, y, 0)])
    ensures ItemIds(items) == BfsOf([root])
    ensures multiset(items) == multiset(Items(root, x, y, 0))
  {
    var queue := [Frame(root, x, y, 0)];
    items := [];
    while |queue| > 0
      invariant items + BfsItems(queue) == BfsItems([Frame(root, x, y, 0)])
      decreases StackSize(queue)
    {
      var f := queue[0];
      var it := Painted(f);
      items := items + [it];
      queue := Dequeue(queue);
    }
    assert items == BfsItems([Frame(root, x, y, 0)]);
    BfsItemIds([Frame(root, x, y, 0)]);
    BfsPaintsStackItems([Frame(root, x, y, 0)]);
    assert StackItems([Frame(root, x, y, 0)]) == Items(root, x, y, 0) + StackItems([]);
  }

  /**
   * `do_update_recursive` and `do_tick_recursive` of bomberman/main.py:
   * the identities whose hook runs, in order — each node in pre-order when
   * its flag is in `on`, sub-nodes visited whatever their parent's flag.
   */
  function MainVisit(t: Tree, on: set<NodeId>): (r: seq<NodeId>)
    ensures |r| <= Size(t)
    decreases t
  {
    (if t.id in on then [t.id] else []) + MainForest(t.children, on)
  }

  function MainForest(ts: seq<Tree>, on: set<NodeId>): (r: seq<NodeId>)
    ensures |r| <= ForestSize(ts)
    decreases ts
  {
    if |ts| == 0 then [] else MainVisit(ts[0], on) + MainForest(ts[1..], on)
  }

  /** The hooks run are exactly the enabled nodes of the pre-order, in pre-order. */
  lemma {:induction false} MainVisitFilters(t: Tree, on: set<NodeId>)
    ensures MainVisit(t, on) == Seqs.Filter(PreOrder(t), k => k in on)
    decreases t, 1
  {
    MainForestFilters(t.children, on);
    Seqs.FilterConcat([t.id], PreForest(t.children), k => k in on);
    assert Seqs.Filter([t.id], k => k in on) == (if t.id in on then [t.id] else []) by {
      assert [t.id][1..] == [];
    }
  }

  lemma {:induction false} MainForestFilters(ts: seq<Tree>, on: set<NodeId>)
    ensures MainForest(ts, on) == Seqs.Filter(PreForest(ts), k => k in on)
    decreases ts, 0
  {
    if |ts| > 0 {
      MainVisitFilters(ts[0], on);
      MainForestFilters(ts[1..], on);
      Seqs.FilterConcat(PreOrder(ts[0]), PreForest(ts[1..]), k => k in on);
    }
  }

  /** With every flag on, every node's hook runs once, in pre-order. */
  lemma AllEnabledVisitsPreOrder(t: Tree, on: set<NodeId>)
    requires forall k :: k in PreOrder(t) ==> k in on
    ensures MainVisit(t, on) == PreOrder(t)
  {
    MainVisitFilters(t, on);
    FilterKeepsAll(PreOrder(t), on);
  }

  /** Filtering by a set that holds every element keeps the sequence as it is. */
  lemma {:induction false} FilterKeepsAll(s: seq<NodeId>, on: set<NodeId>)
    requires forall k :: k in s ==> k in on
    ensures Seqs.Filter(s, k => k in on) == s
    decreases |s|
  {
    if |s| > 0 {
      assert forall k :: k in s[1..] ==> k in s;
      FilterKeepsAll(s[1..], on);
      assert s == [s[0]] + s[1..];
    }
  }

  /** A disabled node does not run its hook, but its sub-nodes still run theirs. */
  lemma DisabledStillDescends(t: Tree, on: set<NodeId>)
    requires t.id !in on
    ensures MainVisit(t, on) == MainForest(t.children, on)
  {
  }
}
