/**
 * The parent/child links of the scene graph: `add_node` appends a node to
 * its new parent's list of sub-nodes and points the node back at it;
 * `remove_node` takes the first occurrence out of the list and clears the
 * back pointer, failing with `ValueError` when the node is not in the list.
 * pnode.py, bomberman/pnode.py and bomberman/main.py share these bodies.
 */
module Links {
  import opened Wrappers
  import opened Nodes
  import Seqs

  /** Each node's list of sub-nodes, and each node's parent (`None` when detached). */
  datatype Links = Links(children: map<NodeId, seq<NodeId>>, parent: map<NodeId, Option<NodeId>>)

  /** The sub-nodes of `p`; a node nobody has added to has none. */
  function Children(l: Links, p: NodeId): seq<NodeId> {
    if p in l.children then l.children[p] else []
  }

  /** The parent of `c`; a node never attached has none. */
  function Parent(l: Links, c: NodeId): Option<NodeId> {
    if c in l.parent then l.parent[c] else None
  }

  /** `add_node`: `c` goes at the end of `p`'s sub-nodes and its parent becomes `p`. */
  function AddNode(l: Links, p: NodeId, c: NodeId): (r: Links)
    ensures Children(r, p) == Children(l, p) + [c]
    ensures Parent(r, c) == Some(p)
    ensures forall q :: q != p ==> Children(r, q) == Children(l, q)
    ensures forall d :: d != c ==> Parent(r, d) == Parent(l, d)
  {
    Links(l.children[p := Children(l, p) + [c]], l.parent[c := Some(p)])
  }

  /**
   * `remove_node`: the first occurrence of `c` leaves `p`'s sub-nodes and
   * its parent is cleared. A node that is not among `p`'s sub-nodes makes
   * `list.remove` raise `ValueError` (`None`).
   */
  function RemoveNode(l: Links, p: NodeId, c: NodeId): (r: Option<Links>)
    ensures r.None? <==> c !in Children(l, p)
    ensures r.Some? ==> multiset(Children(r.value, p)) == multiset(Children(l, p)) - multiset{c}
    ensures r.Some? ==> |Children(r.value, p)| == |Children(l, p)| - 1
    ensures r.Some? ==> exists i :: 0 <= i < |Children(l, p)| && Children(l, p)[i] == c && c !in Children(l, p)[..i]
                                    && Children(r.value, p) == Children(l, p)[..i] + Children(l, p)[i + 1..]
    ensures r.Some? ==> Parent(r.value, c) == None
    ensures r.Some? ==> forall q :: q != p ==> Children(r.value, q) == Children(l, q)
    ensures r.Some? ==> forall d :: d != c ==> Parent(r.value, d) == Parent(l, d)
  {
    if c !in Children(l, p) then None
    else
      Seqs.RemoveFirstShrinks(Children(l, p), c);
      Seqs.RemoveFirstOrder(Children(l, p), c);
      Some(Links(l.children[p := Seqs.RemoveFirst(Children(l, p), c)], l.parent[c := None]))
  }

  /** Removing a node just added, that was not a sub-node before, restores the list and detaches it. */
  lemma RemoveUndoesAdd(l: Links, p: NodeId, c: NodeId)
    requires c !in Children(l, p)
    ensures var r := RemoveNode(AddNode(l, p, c), p, c);
            r.Some? && Children(r.value, p) == Children(l, p) && Parent(r.value, c) == None
  {
    Seqs.RemoveFirstAppend(Children(l, p), c);
  }

  /** Removing a node that is not a sub-node fails. */
  lemma RemoveAbsentFails(l: Links, p: NodeId, c: NodeId)
    requires c !in Children(l, p)
    ensures RemoveNode(l, p, c).None?
    ensures RemoveNode(AddNode(l, p, c), p, c).Some?
  {
  }

  /**
   * Adding the same node twice and removing it once leaves one copy in the
   * list while its parent is already cleared: the lists do not guard
   * against duplicates.
   */
  lemma AddTwiceRemoveOnce(l: Links, p: NodeId, c: NodeId)
    requires c !in Children(l, p)
    ensures var r := RemoveNode(AddNode(AddNode(l, p, c), p, c), p, c);
            r.Some? && multiset(Children(r.value, p))[c] == 1 && Parent(r.value, c) == None
  {
    var s: seq<NodeId> := Children(l, p) + [c] + [c];
    assert multiset(s)[c] == multiset(Children(l, p))[c] + 2;
  }

  /**
   * Adding a node that already has another parent does not take it out of
   * that parent's list: it is then listed under both, and only the new one
   * is its parent.
   */
  lemma AddKeepsOldParentList(l: Links, p: NodeId, q: NodeId, c: NodeId)
    requires q != p && c in Children(l, q)
    ensures var r := AddNode(l, p, c);
            c in Children(r, q) && c in Children(r, p) && Parent(r, c) == Some(p)
  {
  }
}
