/**
 * The part of the tile map that the stage rules read and write: the list
 * of nodes in every cell, in insertion order (`MapContainer.__map`), and the
 * cell every tracked node belongs to (`__cell`). Pixel geometry, deltas
 * and z-indices live in the MapContainer module; the stage rules only ever
 * ask which nodes share a cell.
 */
module Grid {
  import opened Nodes
  import Seqs

  /** A cell index `(x, y)`. */
  type Cell = (int, int)

  /** The map's size in cells, every cell's node list, and every tracked node's cell. */
  datatype Board = Board(cols: nat, rows: nat, cells: map<Cell, seq<NodeId>>, at: map<NodeId, Cell>)

  /** `0 <= x < map_size[0] and 0 <= y < map_size[1]`. */
  predicate InMap(b: Board, c: Cell) {
    0 <= c.0 < b.cols && 0 <= c.1 < b.rows
  }

  /** `get_cell_nodes(x, y)`: the live list of the cell; a cell nothing was added to is empty. */
  function Occupants(b: Board, c: Cell): seq<NodeId> {
    if c in b.cells then b.cells[c] else []
  }

  /** `add_node(node, x, y)`: appended to the cell's list and tracked at that cell. */
  function Add(b: Board, n: NodeId, c: Cell): (r: Board)
    ensures Occupants(r, c) == Occupants(b, c) + [n]
    ensures forall d :: d != c ==> Occupants(r, d) == Occupants(b, d)
    ensures r.at == b.at[n := c]
    ensures r.cols == b.cols && r.rows == b.rows
  {
    b.(cells := b.cells[c := Occupants(b, c) + [n]], at := b.at[n := c])
  }

  /**
   * `remove_node(node)`: the first occurrence leaves the list of the cell
   * the node is tracked at, and the node is no longer tracked. An untracked
   * node makes the source raise `KeyError`; the model leaves the board as it
   * is. A `Consistent` board never hands such a node out of a cell list,
   * and every stage rule keeps the board consistent (`StageWorld.Sound`).
   */
  function Remove(b: Board, n: NodeId): (r: Board)
    ensures r.at == b.at - {n}
    ensures r.cols == b.cols && r.rows == b.rows
  {
    if n in b.at then
      var c := b.at[n];
      b.(cells := b.cells[c := Seqs.RemoveFirst(Occupants(b, c), n)], at := b.at - {n})
    else b
  }

  /** The cell lists after a removal: the node's own cell loses its first occurrence, the others stay. */
  lemma RemoveCells(b: Board, n: NodeId)
    ensures n in b.at ==> Occupants(Remove(b, n), b.at[n]) == Seqs.RemoveFirst(Occupants(b, b.at[n]), n)
    ensures forall d :: (n !in b.at || d != b.at[n]) ==> Occupants(Remove(b, n), d) == Occupants(b, d)
  {
  }

  /** Removing a node makes no cell list longer. */
  lemma RemoveNoLonger(b: Board, n: NodeId)
    ensures forall d :: |Occupants(Remove(b, n), d)| <= |Occupants(b, d)|
  {
    if n in b.at {
      Seqs.RemoveFirstNoLonger(Occupants(b, b.at[n]), n);
    }
  }

  /** A removal only takes nodes out of a cell list. */
  lemma RemoveOnlyDrops(b: Board, n: NodeId, c: Cell)
    ensures |Occupants(Remove(b, n), c)| <= |Occupants(b, c)|
    ensures forall m :: m in Occupants(Remove(b, n), c) ==> m in Occupants(b, c)
  {
    RemoveCells(b, n);
    if n in b.at && c == b.at[n] {
      Seqs.RemoveFirstShrinks(Occupants(b, c), n);
    }
  }

  /**
   * The map's bookkeeping agrees with itself: every listed node is tracked
   * at the cell that lists it, and every tracked node occurs exactly once
   * in that cell's list.
   */
  ghost predicate Consistent(b: Board) {
    (forall c, m :: m in Occupants(b, c) ==> m in b.at && b.at[m] == c)
    && (forall m :: m in b.at ==> multiset(Occupants(b, b.at[m]))[m] == 1)
  }

  /** Adding an untracked node keeps the bookkeeping consistent. */
  lemma AddKeepsConsistent(b: Board, n: NodeId, c: Cell)
    requires Consistent(b) && n !in b.at
    ensures Consistent(Add(b, n, c))
  {
    var r := Add(b, n, c);
    assert n !in Occupants(b, c);
    assert multiset(Occupants(r, c)) == multiset(Occupants(b, c)) + multiset{n};
    forall m | m in r.at ensures multiset(Occupants(r, r.at[m]))[m] == 1 {
      if m == n {
        assert multiset(Occupants(b, c))[n] == 0;
      } else if r.at[m] == c {
        assert r.at[m] == b.at[m];
      }
    }
    forall d, m | m in Occupants(r, d) ensures m in r.at && r.at[m] == d {
      if d == c && m != n {
        assert m in Occupants(b, c);
      }
    }
  }

  /** Removing a tracked node keeps the bookkeeping consistent, and the node is in no list any more. */
  lemma RemoveKeepsConsistent(b: Board, n: NodeId)
    requires Consistent(b) && n in b.at
    ensures Consistent(Remove(b, n))
    ensures forall c :: n !in Occupants(Remove(b, n), c)
  {
    assert Consistent(Remove(b, n)) by {
      RemoveKeepsOnce(b, n);
      RemoveKeepsListed(b, n);
    }
    RemoveGone(b, n);
  }

  lemma RemoveKeepsOnce(b: Board, n: NodeId)
    requires Consistent(b) && n in b.at
    ensures forall m :: m in Remove(b, n).at ==> multiset(Occupants(Remove(b, n), Remove(b, n).at[m]))[m] == 1
  {
    var r := Remove(b, n);
    RemoveCells(b, n);
    forall m | m in r.at ensures multiset(Occupants(r, r.at[m]))[m] == 1 {
      assert r.at[m] == b.at[m];
    }
  }

  lemma RemoveKeepsListed(b: Board, n: NodeId)
    requires Consistent(b) && n in b.at
    ensures forall c, m :: m in Occupants(Remove(b, n), c) ==> m in Remove(b, n).at && Remove(b, n).at[m] == c
  {
    var r := Remove(b, n);
    forall c, m | m in Occupants(r, c) ensures m in r.at && r.at[m] == c {
      RemoveOnlyDrops(b, n, c);
      RemoveGone(b, n);
      assert m in Occupants(b, c) && m != n;
    }
  }

  lemma RemoveGone(b: Board, n: NodeId)
    requires Consistent(b) && n in b.at
    ensures forall c :: n !in Occupants(Remove(b, n), c)
  {
    RemoveCells(b, n);
    assert multiset(Occupants(Remove(b, n), b.at[n]))[n] == 0;
  }

  /** Tracking a new node and untracking it again gives the table back. */
  lemma UntrackAdded(at: map<NodeId, Cell>, n: NodeId, c: Cell)
    requires n !in at
    ensures at[n := c] - {n} == at
  {
  }

  /** Adding a node that is neither tracked nor listed at the cell, and removing it again, restores the board. */
  lemma AddThenRemove(b: Board, n: NodeId, c: Cell)
    requires n !in b.at && n !in Occupants(b, c)
    ensures Remove(Add(b, n, c), n).at == b.at
    ensures forall d :: Occupants(Remove(Add(b, n, c), n), d) == Occupants(b, d)
  {
    var a := Add(b, n, c);
    assert Occupants(Remove(a, n), c) == Occupants(b, c) by {
      assert Occupants(Remove(a, n), c) == Seqs.RemoveFirst(Occupants(b, c) + [n], n);
      Seqs.RemoveFirstAppend(Occupants(b, c), n);
    }
    UntrackAdded(b.at, n, c);
  }
}
