/**
 * The earlier tile-map container of containers.py. Its state and every
 * operation except `add_node` are those of uicomponents.py's container
 * (module MapContainer). Its `add_node` records the delta and size as given,
 * without dividing them by the current scale ratio, so a node added after a
 * resize is rescaled from the wrong originals by the next resize.
 */
module EarlyMap {
  import opened Wrappers
  import opened Nodes
  import opened MapContainer
  import Numeric

  /** The entry containers.py's `add_node` records: the originals are the values as given. */
  function EarlyEntry(c: Cell, p: (real, real), dx: real, dy: real, b: Box): (r: Entry)
    ensures r.cell == c && Anchor(r) == p && r.delta == (dx, dy)
    ensures r.box.z == b.z - c.1 && r.origZ == b.z && r.box.w == b.w && r.box.h == b.h
    ensures r.origDelta == (dx, dy) && r.origSize == (b.w, b.h)
  {
    Entry(c, (dx, dy), (dx, dy), (b.w, b.h), b.z, Box(p.0 + dx, p.1 + dy, b.w, b.h, b.z - c.1))
  }

  /**
   * containers.py's `add_node`: the node joins the list of cell `(x, y)` and
   * is drawn there; it needs no ratio, so any cell size will do.
   */
  function AddNode(m: Map, n: NodeId, x: int, y: int, dx: real, dy: real, b: Box): (r: Map)
    requires Valid(m) && n !in m.nodes && m.InGrid(x, y)
    ensures SameFrame(r, m) && Valid(r)
    ensures r.nodes == m.nodes[n := EarlyEntry((x, y), CellPosR(m, x, y), dx, dy, b)]
    ensures GetCell(r, n) == Some((x, y)) && GetNodePos(r, n) == CellPosR(m, x, y)
    ensures r.grid[x][y] == m.grid[x][y] + [n]
    ensures forall i, j :: m.InGrid(i, j) && (i, j) != (x, y) ==> r.grid[i][j] == m.grid[i][j]
  {
    Insert(m, n, EarlyEntry((x, y), CellPosR(m, x, y), dx, dy, b))
  }

  /** While the container has its original cell size, the two versions of `add_node` agree. */
  lemma AddNodeAgreesUnscaled(m: Map, n: NodeId, x: int, y: int, dx: real, dy: real, b: Box)
    requires Valid(m) && n !in m.nodes && m.InGrid(x, y) && m.CellSize() > 0
    requires m.CellSize() == m.origCellSize
    ensures AddNode(m, n, x, y, dx, dy, b) == MapContainer.AddNode(m, n, x, y, dx, dy, b)
  {
    var e := NewEntry((x, y), CellPosR(m, x, y), dx, dy, b, m.Ratio());
    Numeric.DivSelf(m.CellSize() as real);
    assert e == EarlyEntry((x, y), CellPosR(m, x, y), dx, dy, b);
  }

  /** Rescaling an entry recorded as given multiplies the given delta and size by the ratio. */
  lemma RescaleEarlyEntry(c: Cell, p: (real, real), dx: real, dy: real, b: Box, ratio: real, p2: (real, real))
    ensures var e := Rescaled(EarlyEntry(c, p, dx, dy, b), p2, ratio);
            e.delta.0 == dx * ratio && e.delta.1 == dy * ratio && e.box.w == b.w * ratio && e.box.h == b.h * ratio
  {
    var o := EarlyEntry(c, p, dx, dy, b);
    assert o.origDelta.0 == dx && o.origDelta.1 == dy && o.origSize.0 == b.w && o.origSize.1 == b.h;
    var e := Rescaled(o, p2, ratio);
    assert e.delta.0 == dx * ratio && e.delta.1 == dy * ratio;
  }

  /** Two containers with the same frame have the same ratio. */
  lemma SameFrameRatio(a: Map, m: Map)
    requires SameFrame(a, m) && m.origCellSize > 0
    ensures a.Ratio() == m.Ratio()
  {
  }

  /** A container whose cells are twice their original size has ratio 2. */
  lemma DoubledRatio(m: Map)
    requires m.origCellSize > 0 && m.CellSize() == 2 * m.origCellSize
    ensures m.Ratio() == 2.0
  {
    Numeric.DivExact(m.cs as real, m.origCellSize as real, 2.0);
  }

  /** A resize that keeps the cell size redraws a node from its stored originals at the unchanged ratio. */
  lemma ResizeSameCellEntry(a: Map, width: int, height: int, n: NodeId)
    requires Valid(a) && n in a.nodes && Metrics(width, height, a.cols, a.rows).0 == a.CellSize()
    ensures var r := OnResize(a, width, height);
            var c := a.nodes[n].cell;
            r.nodes[n] == Rescaled(a.nodes[n], CellPosR(r, c.0, c.1), a.Ratio())
  {
    var r := OnResize(a, width, height);
    assert r.cs == a.cs && r.origCellSize == a.origCellSize;
  }

  /** The entry a same-size resize gives a node added with containers.py's `add_node`. */
  lemma AddThenResizeEntry(m: Map, n: NodeId, x: int, y: int, dx: real, dy: real, b: Box, width: int, height: int)
    requires Valid(m) && n !in m.nodes && m.InGrid(x, y)
    requires Metrics(width, height, m.cols, m.rows).0 == m.CellSize()
    ensures var r := OnResize(AddNode(m, n, x, y, dx, dy, b), width, height);
            r.nodes[n] == Rescaled(EarlyEntry((x, y), CellPosR(m, x, y), dx, dy, b), CellPosR(r, x, y), m.Ratio())
  {
    var a := AddNode(m, n, x, y, dx, dy, b);
    assert a.nodes[n] == EarlyEntry((x, y), CellPosR(m, x, y), dx, dy, b);
    ResizeSameCellEntry(a, width, height, n);
    SameFrameRatio(a, m);
  }

  /**
   * In a container whose cells have grown to twice their original size, a
   * node added with containers.py's `add_node` comes out of a resize that
   * keeps the size with twice the delta and size it was given (where
   * `MapContainer.AddThenResizeSameCell` gives them back unchanged).
   */
  lemma AddThenResizeMisScales(m: Map, n: NodeId, x: int, y: int, dx: real, dy: real, b: Box, width: int, height: int)
    requires Valid(m) && n !in m.nodes && m.InGrid(x, y) && m.CellSize() == 2 * m.origCellSize
    requires Metrics(width, height, m.cols, m.rows).0 == m.CellSize()
    ensures var r := OnResize(AddNode(m, n, x, y, dx, dy, b), width, height);
            r.nodes[n].box.w == b.w * 2.0 && r.nodes[n].box.h == b.h * 2.0 &&
            r.nodes[n].delta.0 == dx * 2.0 && r.nodes[n].delta.1 == dy * 2.0
  {
    AddThenResizeEntry(m, n, x, y, dx, dy, b, width, height);
    DoubledRatio(m);
    var r := OnResize(AddNode(m, n, x, y, dx, dy, b), width, height);
    var e := Rescaled(EarlyEntry((x, y), CellPosR(m, x, y), dx, dy, b), CellPosR(r, x, y), 2.0);
    assert r.nodes[n] == e;
    RescaleEarlyEntry((x, y), CellPosR(m, x, y), dx, dy, b, 2.0, CellPosR(r, x, y));
  }

  /**
   * Such a container exists: a 1 x 1 container created 10 pixels square and
   * resized to 20 has cells twice their original size.
   */
  lemma DoubledReachable()
    ensures var m0 := MapContainer.New(1, 1, 10, 10);
            m0.Some? &&
            var m := OnResize(m0.value, 20, 20);
            Valid(m) && m.InGrid(0, 0) && m.CellSize() == 2 * m.origCellSize &&
            Metrics(20, 20, m.cols, m.rows).0 == m.CellSize()
  {
    var m0 := MapContainer.New(1, 1, 10, 10);
    assert Metrics(10, 10, 1, 1).0 == 10;
    assert m0.Some?;
    var m := OnResize(m0.value, 20, 20);
    assert Metrics(20, 20, 1, 1).0 == 20;
  }
}
