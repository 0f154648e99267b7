/**
 * The tile-map container of uicomponents.py: a `cols` x `rows` matrix of
 * per-cell node lists and, per tracked node, the bookkeeping that lets
 * nodes move smoothly between cells and rescale on resize.
 *
 * A node is an opaque id. The source keeps five dictionaries keyed by node
 * (`__cell`, `__delta`, `__orig_delta`, `__orig_size`, `__orig_z_index`)
 * that always share their keys; here they are one `Entry` per node, which
 * also holds the style `__update_pos` last wrote (`box`).
 */
module MapContainer {
  import opened Wrappers
  import opened Nodes
  import Numeric
  import Seqs

  /** A cell index `(x, y)`, column first. */
  type Cell = (int, int)

  /** A node's evaluated style: `left`, `top`, `width`, `height`, `z-index`. */
  datatype Box = Box(x: real, y: real, w: real, h: real, z: int)

  /** What the container knows about one tracked node. */
  datatype Entry = Entry(
    cell: Cell,
    delta: (real, real),
    origDelta: (real, real),
    origSize: (real, real),
    origZ: int,
    box: Box)

  /**
   * The container state. `cs`, `padX` and `padY` are the attributes
   * `__update_cell_size` keeps (`Sized` ties them to the pixel size);
   * `origCellSize` is the cell size at construction.
   */
  datatype Map = Map(
    cols: int, rows: int,
    width: int, height: int,
    cs: int, padX: int, padY: int,
    origCellSize: int,
    grid: seq<seq<seq<NodeId>>>,
    nodes: map<NodeId, Entry>)
  {
    /** `get_cell_size`. */
    function CellSize(): int {
      cs
    }

    /** `float(cell_size) / orig_cell_size`: how far the cells have been scaled since construction. */
    function Ratio(): (r: real)
      requires origCellSize > 0
      ensures cs > 0 ==> r > 0.0
    {
      Numeric.DivPos(cs as real, origCellSize as real);
      cs as real / origCellSize as real
    }

    predicate InGrid(x: int, y: int) {
      0 <= x < cols && 0 <= y < rows
    }
  }

  /**
   * `__update_cell_size`: the largest square cell that fits both axes
   * (integer division, as the sizes are integers) and the padding that
   * centres the grid on each axis.
   */
  function Metrics(width: int, height: int, cols: int, rows: int): (r: (int, int, int))
    requires cols > 0 && rows > 0
    ensures r.0 * cols <= width && r.0 * rows <= height
    ensures r.0 * cols > width - cols || r.0 * rows > height - rows
    ensures 2 * r.1 <= width - r.0 * cols < 2 * r.1 + 2
    ensures 2 * r.2 <= height - r.0 * rows < 2 * r.2 + 2
  {
    var cs := Numeric.MinI(Numeric.FloorDiv(width, cols), Numeric.FloorDiv(height, rows));
    (cs, Numeric.FloorDiv(width - cs * cols, 2), Numeric.FloorDiv(height - cs * rows, 2))
  }

  /** The cell size and padding agree with the pixel size. */
  ghost predicate Sized(m: Map) {
    m.cols > 0 && m.rows > 0 && (m.cs, m.padX, m.padY) == Metrics(m.width, m.height, m.cols, m.rows)
  }

  /** Two states of the same container with the same pixel size and metrics. */
  predicate SameFrame(r: Map, m: Map) {
    && r.cols == m.cols && r.rows == m.rows && r.width == m.width && r.height == m.height
    && r.cs == m.cs && r.padX == m.padX && r.padY == m.padY && r.origCellSize == m.origCellSize
  }

  /** Number of copies of `n` in the list of cell `(x, y)`. */
  function Count(g: seq<seq<seq<NodeId>>>, x: int, y: int, n: NodeId): nat
    requires 0 <= x < |g| && 0 <= y < |g[x]|
  {
    multiset(g[x][y])[n]
  }

  /**
   * The grid has `cols` columns of `rows` lists, and every tracked node sits
   * in exactly one list, once, namely that of its entry's cell; untracked
   * nodes are in no list.
   */
  ghost predicate Placed(g: seq<seq<seq<NodeId>>>, cols: int, rows: int, t: map<NodeId, Entry>) {
    && |g| == cols
    && (forall x :: 0 <= x < cols ==> |g[x]| == rows)
    && (forall n :: n in t ==> 0 <= t[n].cell.0 < cols && 0 <= t[n].cell.1 < rows)
    && (forall x, y, n :: 0 <= x < cols && 0 <= y < rows ==>
          Count(g, x, y, n) == if n in t && t[n].cell == (x, y) then 1 else 0)
  }

  /** The container's invariant. */
  ghost predicate Valid(m: Map) {
    m.cols > 0 && m.rows > 0 && m.origCellSize > 0 && Placed(m.grid, m.cols, m.rows, m.nodes)
  }

  /** Replace the list of cell `(x, y)`. */
  function SetCell(g: seq<seq<seq<NodeId>>>, x: int, y: int, s: seq<NodeId>): (r: seq<seq<seq<NodeId>>>)
    requires 0 <= x < |g| && 0 <= y < |g[x]|
    ensures |r| == |g| && forall i :: 0 <= i < |g| ==> |r[i]| == |g[i]|
    ensures r[x][y] == s
    ensures forall i, j :: 0 <= i < |g| && 0 <= j < |g[i]| && (i, j) != (x, y) ==> r[i][j] == g[i][j]
  {
    g[x := g[x][y := s]]
  }

  /** Appending an untracked node to a cell list tracks it there. */
  lemma PlaceNew(g: seq<seq<seq<NodeId>>>, cols: int, rows: int, t: map<NodeId, Entry>, n: NodeId, e: Entry)
    requires Placed(g, cols, rows, t) && n !in t && 0 <= e.cell.0 < cols && 0 <= e.cell.1 < rows
    ensures Placed(SetCell(g, e.cell.0, e.cell.1, g[e.cell.0][e.cell.1] + [n]), cols, rows, t[n := e])
  {
    var g2 := SetCell(g, e.cell.0, e.cell.1, g[e.cell.0][e.cell.1] + [n]);
    var t2 := t[n := e];
    forall i, j, k | 0 <= i < cols && 0 <= j < rows
      ensures Count(g2, i, j, k) == if k in t2 && t2[k].cell == (i, j) then 1 else 0
    {
      PlaceNewAt(g, cols, rows, t, n, e, i, j, k);
    }
    assert forall x :: 0 <= x < cols ==> |g2[x]| == rows;
    assert forall k :: k in t2 ==> 0 <= t2[k].cell.0 < cols && 0 <= t2[k].cell.1 < rows;
  }

  lemma PlaceNewAt(g: seq<seq<seq<NodeId>>>, cols: int, rows: int, t: map<NodeId, Entry>, n: NodeId, e: Entry,
                   i: int, j: int, k: NodeId)
    requires Placed(g, cols, rows, t) && n !in t && 0 <= e.cell.0 < cols && 0 <= e.cell.1 < rows
    requires 0 <= i < cols && 0 <= j < rows
    ensures Count(SetCell(g, e.cell.0, e.cell.1, g[e.cell.0][e.cell.1] + [n]), i, j, k) ==
            if k in t[n := e] && t[n := e][k].cell == (i, j) then 1 else 0
  {
    var (x, y) := e.cell;
    var g2 := SetCell(g, x, y, g[x][y] + [n]);
    assert Count(g, i, j, k) == if k in t && t[k].cell == (i, j) then 1 else 0;
    if (i, j) == (x, y) {
      assert multiset(g[x][y] + [n]) == multiset(g[x][y]) + multiset{n};
    } else {
      assert g2[i][j] == g[i][j];
    }
  }

  /** Removing a tracked node from its cell list untracks it everywhere. */
  lemma Unplace(g: seq<seq<seq<NodeId>>>, cols: int, rows: int, t: map<NodeId, Entry>, n: NodeId)
    requires Placed(g, cols, rows, t) && n in t
    ensures var c := t[n].cell;
            Placed(SetCell(g, c.0, c.1, Seqs.RemoveFirst(g[c.0][c.1], n)), cols, rows, t - {n})
  {
    var c := t[n].cell;
    var g2 := SetCell(g, c.0, c.1, Seqs.RemoveFirst(g[c.0][c.1], n));
    var t2 := t - {n};
    UnplaceCounts(g, cols, rows, t, n);
    assert forall x :: 0 <= x < cols ==> |g2[x]| == rows;
    assert forall k :: k in t2 ==> 0 <= t2[k].cell.0 < cols && 0 <= t2[k].cell.1 < rows;
  }

  lemma UnplaceCounts(g: seq<seq<seq<NodeId>>>, cols: int, rows: int, t: map<NodeId, Entry>, n: NodeId)
    requires Placed(g, cols, rows, t) && n in t
    ensures var c := t[n].cell;
            var g2 := SetCell(g, c.0, c.1, Seqs.RemoveFirst(g[c.0][c.1], n));
            forall i, j, k :: 0 <= i < cols && 0 <= j < rows ==>
              Count(g2, i, j, k) == if k in t - {n} && (t - {n})[k].cell == (i, j) then 1 else 0
  {
    forall i, j, k | 0 <= i < cols && 0 <= j < rows
      ensures var c := t[n].cell;
              Count(SetCell(g, c.0, c.1, Seqs.RemoveFirst(g[c.0][c.1], n)), i, j, k) ==
              if k in t - {n} && (t - {n})[k].cell == (i, j) then 1 else 0
    {
      UnplaceAt(g, cols, rows, t, n, i, j, k);
    }
  }

  lemma UnplaceAt(g: seq<seq<seq<NodeId>>>, cols: int, rows: int, t: map<NodeId, Entry>, n: NodeId,
                  i: int, j: int, k: NodeId)
    requires Placed(g, cols, rows, t) && n in t
    requires 0 <= i < cols && 0 <= j < rows
    ensures var c := t[n].cell;
            Count(SetCell(g, c.0, c.1, Seqs.RemoveFirst(g[c.0][c.1], n)), i, j, k) ==
            if k in t - {n} && (t - {n})[k].cell == (i, j) then 1 else 0
  {
    var c := t[n].cell;
    var g2 := SetCell(g, c.0, c.1, Seqs.RemoveFirst(g[c.0][c.1], n));
    assert Count(g, i, j, k) == if k in t && t[k].cell == (i, j) then 1 else 0;
    if (i, j) != c {
      assert g2[i][j] == g[i][j];
    }
  }

  /** Under `Placed`, a list holds a node exactly when the node is tracked in that cell. */
  lemma InCell(g: seq<seq<seq<NodeId>>>, cols: int, rows: int, t: map<NodeId, Entry>, x: int, y: int, n: NodeId)
    requires Placed(g, cols, rows, t) && 0 <= x < cols && 0 <= y < rows
    ensures n in g[x][y] <==> n in t && t[n].cell == (x, y)
  {
    assert n in g[x][y] <==> Count(g, x, y, n) > 0;
  }

  /**
   * The constructor: an empty grid of the given map size. The cell size at
   * construction is the original cell size every later ratio divides by, so
   * a container created with a cell size that is not positive cannot be used
   * (`None`).
   */
  function New(cols: int, rows: int, width: int, height: int): (r: Option<Map>)
    ensures r.Some? <==> cols > 0 && rows > 0 && Metrics(width, height, cols, rows).0 > 0
    ensures r.Some? ==> Valid(r.value) && Sized(r.value) && r.value.nodes == map[]
    ensures r.Some? ==> (r.value.cols, r.value.rows) == (cols, rows) && r.value.CellSize() == r.value.origCellSize
    ensures r.Some? ==> forall x, y :: r.value.InGrid(x, y) ==> r.value.grid[x][y] == []
  {
    if cols <= 0 || rows <= 0 then None
    else
      var mt := Metrics(width, height, cols, rows);
      if mt.0 <= 0 then None
      else
        var g := seq(cols, _ => seq(rows, _ => []));
        Some(Map(cols, rows, width, height, mt.0, mt.1, mt.2, mt.0, g, map[]))
  }

  /** `get_cell_pos`: pixel position of a cell's top-left corner. */
  function CellPos(m: Map, x: int, y: int): (int, int) {
    (m.padX + x * m.cs, m.padY + y * m.cs)
  }

  /**
   * Cell positions start at the padding and are one cell size apart on each
   * axis; with `Sized`, the grid with its padding on both sides fills the
   * container up to one pixel of rounding per axis.
   */
  lemma CellPosSpacing(m: Map, x: int, y: int)
    ensures CellPos(m, 0, 0) == (m.padX, m.padY)
    ensures CellPos(m, x + 1, y).0 == CellPos(m, x, y).0 + m.cs
    ensures CellPos(m, x, y + 1).1 == CellPos(m, x, y).1 + m.cs
    ensures Sized(m) ==> m.width - 1 <= CellPos(m, m.cols, 0).0 + m.padX <= m.width
    ensures Sized(m) ==> m.height - 1 <= CellPos(m, 0, m.rows).1 + m.padY <= m.height
  {
  }

  /** `get_cell`: the cell of a tracked node; a node that is not tracked raises (`None`). */
  function GetCell(m: Map, n: NodeId): (r: Option<Cell>)
    requires Valid(m)
    ensures r.Some? <==> n in m.nodes
    ensures r.Some? ==> m.InGrid(r.value.0, r.value.1) && n in m.grid[r.value.0][r.value.1]
  {
    if n in m.nodes then
      var c := m.nodes[n].cell;
      InCell(m.grid, m.cols, m.rows, m.nodes, c.0, c.1, n);
      Some(c)
    else None
  }

  /** `get_cell_nodes`: the list of one cell; it holds exactly the nodes tracked in that cell. */
  function CellNodes(m: Map, x: int, y: int): (s: seq<NodeId>)
    requires Valid(m) && m.InGrid(x, y)
    ensures forall n :: n in s <==> n in m.nodes && m.nodes[n].cell == (x, y)
  {
    var s := m.grid[x][y];
    assert forall n :: n in s <==> n in m.nodes && m.nodes[n].cell == (x, y) by {
      forall n ensures n in s <==> n in m.nodes && m.nodes[n].cell == (x, y) {
        InCell(m.grid, m.cols, m.rows, m.nodes, x, y, n);
      }
    }
    s
  }

  /** The position of a node entry without its delta. */
  function Anchor(e: Entry): (real, real) {
    (e.box.x - e.delta.0, e.box.y - e.delta.1)
  }

  /** `get_node_pos`: adding the node's delta to it gives the drawn position. */
  function GetNodePos(m: Map, n: NodeId): (p: (real, real))
    requires n in m.nodes
    ensures p.0 + m.nodes[n].delta.0 == m.nodes[n].box.x && p.1 + m.nodes[n].delta.1 == m.nodes[n].box.y
  {
    Anchor(m.nodes[n])
  }

  /** The position of cell `(x, y)` for cell size `g.0` and padding `(g.1, g.2)`, as a drawing position. */
  function PosOf(g: (int, int, int), x: int, y: int): (real, real) {
    ((g.1 + x * g.0) as real, (g.2 + y * g.0) as real)
  }

  /** `get_cell_pos` as a drawing position. */
  function CellPosR(m: Map, x: int, y: int): (real, real) {
    PosOf((m.cs, m.padX, m.padY), x, y)
  }

  /** Appends untracked node `n` to the list of its entry's cell and tracks it there. */
  function Insert(m: Map, n: NodeId, e: Entry): (r: Map)
    requires Valid(m) && n !in m.nodes && m.InGrid(e.cell.0, e.cell.1)
    ensures SameFrame(r, m) && Valid(r)
    ensures r.nodes == m.nodes[n := e]
    ensures r.grid[e.cell.0][e.cell.1] == m.grid[e.cell.0][e.cell.1] + [n]
    ensures forall i, j :: m.InGrid(i, j) && (i, j) != e.cell ==> r.grid[i][j] == m.grid[i][j]
  {
    PlaceNew(m.grid, m.cols, m.rows, m.nodes, n, e);
    m.(grid := SetCell(m.grid, e.cell.0, e.cell.1, m.grid[e.cell.0][e.cell.1] + [n]), nodes := m.nodes[n := e])
  }

  /**
   * The entry `add_node` records: drawn at `p` plus the delta, z-index
   * lowered by the row, and the delta and size stored divided by the scale
   * ratio, so that multiplying them by the ratio gives them back.
   */
  function NewEntry(c: Cell, p: (real, real), dx: real, dy: real, b: Box, ratio: real): (r: Entry)
    requires ratio > 0.0
    ensures r.cell == c && Anchor(r) == p && r.delta == (dx, dy)
    ensures r.box.z == b.z - c.1 && r.origZ == b.z && r.box.w == b.w && r.box.h == b.h
    ensures r.origDelta.0 * ratio == dx && r.origDelta.1 * ratio == dy
    ensures r.origSize.0 * ratio == b.w && r.origSize.1 * ratio == b.h
  {
    Numeric.DivMul(dx, ratio);
    Numeric.DivMul(dy, ratio);
    Numeric.DivMul(b.w, ratio);
    Numeric.DivMul(b.h, ratio);
    Entry(c, (dx, dy), (dx / ratio, dy / ratio), (b.w / ratio, b.h / ratio), b.z,
          Box(p.0 + dx, p.1 + dy, b.w, b.h, b.z - c.1))
  }

  /**
   * `add_node`: appends the node to the list of cell `(x, y)` and records
   * the entry `NewEntry` describes, drawn at the cell's position. A zero
   * cell size makes the ratio zero and the division raise.
   */
  function AddNode(m: Map, n: NodeId, x: int, y: int, dx: real, dy: real, b: Box): (r: Map)
    requires Valid(m) && n !in m.nodes && m.InGrid(x, y) && m.CellSize() > 0
    ensures SameFrame(r, m) && Valid(r)
    ensures r.nodes == m.nodes[n := NewEntry((x, y), CellPosR(m, x, y), dx, dy, b, m.Ratio())]
    ensures GetCell(r, n) == Some((x, y))
    ensures r.grid[x][y] == m.grid[x][y] + [n]
    ensures forall i, j :: m.InGrid(i, j) && (i, j) != (x, y) ==> r.grid[i][j] == m.grid[i][j]
  {
    Insert(m, n, NewEntry((x, y), CellPosR(m, x, y), dx, dy, b, m.Ratio()))
  }

  /**
   * After `add_node` the node is drawn at its cell's position plus the delta
   * it was given, with the size it was given and z-index lowered by its row.
   */
  lemma AddNodePlaces(m: Map, n: NodeId, x: int, y: int, dx: real, dy: real, b: Box)
    requires Valid(m) && n !in m.nodes && m.InGrid(x, y) && m.CellSize() > 0
    ensures var r := AddNode(m, n, x, y, dx, dy, b);
            GetNodePos(r, n) == CellPosR(m, x, y) && r.nodes[n].delta == (dx, dy) &&
            r.nodes[n].box.w == b.w && r.nodes[n].box.h == b.h && r.nodes[n].box.z == b.z - y
  {
    var e := NewEntry((x, y), CellPosR(m, x, y), dx, dy, b, m.Ratio());
    assert AddNode(m, n, x, y, dx, dy, b).nodes[n] == e;
  }

  /**
   * `remove_node`: the node leaves its cell list and every table, so a later
   * `get_cell` on it fails; every other node keeps its cell and entry.
   */
  function RemoveNode(m: Map, n: NodeId): (r: Map)
    requires Valid(m) && n in m.nodes
    ensures SameFrame(r, m) && Valid(r)
    ensures r.nodes == m.nodes - {n}
    ensures GetCell(r, n) == None
    ensures forall i, j :: m.InGrid(i, j) && (i, j) != m.nodes[n].cell ==> r.grid[i][j] == m.grid[i][j]
    ensures var c := m.nodes[n].cell; r.grid[c.0][c.1] == Seqs.RemoveFirst(m.grid[c.0][c.1], n)
  {
    var c := m.nodes[n].cell;
    Unplace(m.grid, m.cols, m.rows, m.nodes, n);
    m.(grid := SetCell(m.grid, c.0, c.1, Seqs.RemoveFirst(m.grid[c.0][c.1], n)), nodes := m.nodes - {n})
  }

  /** After `remove_node` no cell list holds the node any more. */
  lemma RemoveNodeGone(m: Map, n: NodeId)
    requires Valid(m) && n in m.nodes
    ensures var r := RemoveNode(m, n);
            forall i, j :: m.InGrid(i, j) ==> n !in r.grid[i][j]
  {
    var r := RemoveNode(m, n);
    forall i, j | m.InGrid(i, j) ensures n !in r.grid[i][j] {
      InCell(r.grid, r.cols, r.rows, r.nodes, i, j, n);
    }
  }

  /** Moves tracked node `n` to the end of the list of `(x, y)`, with entry `e` (whose cell is `(x, y)`). */
  function Relocate(m: Map, n: NodeId, e: Entry): (r: Map)
    requires Valid(m) && n in m.nodes && m.InGrid(e.cell.0, e.cell.1)
    ensures SameFrame(r, m) && Valid(r)
    ensures r.nodes == m.nodes[n := e]
    ensures r.grid[e.cell.0][e.cell.1] == Seqs.RemoveFirst(m.grid[e.cell.0][e.cell.1], n) + [n]
  {
    RemoveNodeCell(m, n, e.cell.0, e.cell.1);
    RemoveNodeRenew(m, n, e);
    Insert(RemoveNode(m, n), n, e)
  }

  lemma RemoveNodeRenew(m: Map, n: NodeId, e: Entry)
    requires Valid(m) && n in m.nodes
    ensures RemoveNode(m, n).nodes[n := e] == m.nodes[n := e]
  {
  }

  /** `remove_node` takes the node out of whichever list held it; on every list it acts as `list.remove`. */
  lemma RemoveNodeCell(m: Map, n: NodeId, x: int, y: int)
    requires Valid(m) && n in m.nodes && m.InGrid(x, y)
    ensures RemoveNode(m, n).grid[x][y] == Seqs.RemoveFirst(m.grid[x][y], n)
  {
    if (x, y) != m.nodes[n].cell {
      InCell(m.grid, m.cols, m.rows, m.nodes, x, y, n);
    }
  }

  /** The lists other than the old and the new cell of a relocated node do not change. */
  lemma RelocateOthers(m: Map, n: NodeId, e: Entry, i: int, j: int)
    requires Valid(m) && n in m.nodes && m.InGrid(e.cell.0, e.cell.1)
    requires m.InGrid(i, j) && (i, j) != e.cell
    ensures var r := Relocate(m, n, e);
            r.grid[i][j] == if (i, j) == m.nodes[n].cell then Seqs.RemoveFirst(m.grid[i][j], n) else m.grid[i][j]
  {
    var m1 := RemoveNode(m, n);
    assert Relocate(m, n, e) == Insert(m1, n, e);
    assert Insert(m1, n, e).grid[i][j] == m1.grid[i][j];
  }

  /**
   * A node entry moved to cell `c` and drawn with its delta-free position at
   * `q`; its z-index becomes its original z-index minus the row, and its
   * delta, size and stored originals are kept.
   */
  function Redrawn(e: Entry, c: Cell, q: (real, real)): (r: Entry)
    ensures r.cell == c && Anchor(r) == q && r.box.z == e.origZ - c.1
    ensures r.delta == e.delta && r.box.w == e.box.w && r.box.h == e.box.h
    ensures r.origDelta == e.origDelta && r.origSize == e.origSize && r.origZ == e.origZ
  {
    e.(cell := c, box := e.box.(x := q.0 + e.delta.0, y := q.1 + e.delta.1, z := e.origZ - c.1))
  }

  /**
   * `move_to`: the node jumps to cell `(x, y)`: it leaves its old list, is
   * appended to the new one, and is redrawn at the new cell's position.
   * No other node's entry changes.
   */
  function MoveTo(m: Map, n: NodeId, x: int, y: int): (r: Map)
    requires Valid(m) && n in m.nodes && m.InGrid(x, y)
    ensures SameFrame(r, m) && Valid(r)
    ensures r.nodes == m.nodes[n := Redrawn(m.nodes[n], (x, y), CellPosR(m, x, y))]
    ensures GetCell(r, n) == Some((x, y)) && GetNodePos(r, n) == CellPosR(m, x, y)
    ensures r.grid[x][y] == Seqs.RemoveFirst(m.grid[x][y], n) + [n]
  {
    Relocate(m, n, Redrawn(m.nodes[n], (x, y), CellPosR(m, x, y)))
  }

  /**
   * The position clamp of `move_pos`: a single if/elif chain, so at most one
   * bound is enforced per call, and a y bound only when x was in range.
   */
  function ClampOnce(nx: real, ny: real, lox: real, loy: real, hix: real, hiy: real): (p: (real, real))
    ensures nx < lox ==> p == (lox, ny)
    ensures lox <= nx && nx > hix ==> p == (hix, ny)
    ensures lox <= nx <= hix && ny < loy ==> p == (nx, loy)
    ensures lox <= nx <= hix && loy <= ny && ny > hiy ==> p == (nx, hiy)
    ensures lox <= nx <= hix && loy <= ny <= hiy ==> p == (nx, ny)
  {
    if nx < lox then (lox, ny)
    else if nx > hix then (hix, ny)
    else if ny < loy then (nx, loy)
    else if ny > hiy then (nx, hiy)
    else (nx, ny)
  }

  /** `__restrict_pos` on one axis: clamps an index into `[0, size - 1]`. */
  function Restrict(i: int, size: int): (r: int)
    requires size > 0
    ensures 0 <= r < size
    ensures 0 <= i < size ==> r == i
    ensures i < 0 ==> r == 0
    ensures i >= size ==> r == size - 1
  {
    if i < 0 then 0 else if i >= size then size - 1 else i
  }

  /** The cell index on one axis for a pixel offset from the padding: `int((offset + cell / 2) / cell)`. */
  function AxisIndex(offset: real, cs: int): int
    requires cs > 0
  {
    Numeric.Trunc((offset + (cs / 2) as real) / cs as real)
  }

  /**
   * The half-cell rounding: for a position at or after the start of the
   * grid, the index is the cell whose origin is nearest, i.e. the node
   * changes cell once it is half a cell (rounded down) past the boundary.
   */
  lemma AxisIndexNearest(offset: real, cs: int)
    requires cs > 0
    requires offset + (cs / 2) as real >= 0.0
    ensures var k := AxisIndex(offset, cs);
            k >= 0 &&
            k as real * cs as real - (cs / 2) as real <= offset < (k as real + 1.0) * cs as real - (cs / 2) as real
  {
    Numeric.TruncDivBounds(offset + (cs / 2) as real, cs as real);
  }

  /** The index is the unique `k` whose half-shifted cell holds the offset. */
  lemma AxisIndexUnique(offset: real, cs: int, k: int)
    requires cs > 0 && k >= 0
    requires k as real * cs as real <= offset + (cs / 2) as real < (k as real + 1.0) * cs as real
    ensures AxisIndex(offset, cs) == k
  {
    Numeric.TruncDivUnique(offset + (cs / 2) as real, cs as real, k);
  }

  /** Moving by exactly one cell moves the index by exactly one. */
  lemma AxisIndexStep(offset: real, cs: int)
    requires cs > 0
    requires offset + (cs / 2) as real >= 0.0
    ensures AxisIndex(offset + cs as real, cs) == AxisIndex(offset, cs) + 1
  {
    var c := cs as real;
    var k := AxisIndex(offset, cs);
    AxisIndexNearest(offset, cs);
    assert (k as real + 1.0) * c + c == (k as real + 2.0) * c;
    AxisIndexUnique(offset + c, cs, k + 1);
  }

  /** A position exactly at a cell origin rounds to that cell. */
  lemma AxisIndexAtCell(cs: int, i: int)
    requires cs > 0 && i >= 0
    ensures AxisIndex((i * cs) as real, cs) == i
  {
    var c := cs as real;
    assert (i * cs) as real == i as real * c;
    assert 0 <= cs / 2 < cs;
    assert (i as real + 1.0) * c == i as real * c + c;
    AxisIndexUnique((i * cs) as real, cs, i);
  }

  /** The new cell `move_pos` derives from a delta-free position. */
  function PosCell(m: Map, q: (real, real)): (c: Cell)
    requires m.cols > 0 && m.rows > 0 && m.cs > 0
    ensures m.InGrid(c.0, c.1)
  {
    (Restrict(AxisIndex(q.0 - m.padX as real, m.cs), m.cols),
     Restrict(AxisIndex(q.1 - m.padY as real, m.cs), m.rows))
  }

  /** The delta-free position `move_pos` moves a node to, before rounding to a cell. */
  function MoveTarget(m: Map, n: NodeId, ddx: real, ddy: real): (real, real)
    requires n in m.nodes
  {
    var p := GetNodePos(m, n);
    var tl := CellPosR(m, 0, 0);
    var br := CellPosR(m, m.cols - 1, m.rows - 1);
    ClampOnce(p.0 + ddx, p.1 + ddy, tl.0, tl.1, br.0, br.1)
  }

  /**
   * `move_pos`: moves the node by `(ddx, ddy)` from its delta-free position,
   * clamps the result against the first and last cell positions, derives the
   * cell by half-cell rounding, restricts it to the grid, and re-appends the
   * node to that cell's list even when the cell did not change. Division by a
   * zero cell size raises, hence the requirement.
   */
  function MovePos(m: Map, n: NodeId, ddx: real, ddy: real): (r: Map)
    requires Valid(m) && n in m.nodes && m.CellSize() > 0
    ensures SameFrame(r, m) && Valid(r)
    ensures var q := MoveTarget(m, n, ddx, ddy);
            r.nodes == m.nodes[n := Redrawn(m.nodes[n], PosCell(m, q), q)]
    ensures GetCell(r, n) == Some(PosCell(m, MoveTarget(m, n, ddx, ddy)))
    ensures GetNodePos(r, n) == MoveTarget(m, n, ddx, ddy)
    ensures var c := r.nodes[n].cell;
            r.grid[c.0][c.1] == Seqs.RemoveFirst(m.grid[c.0][c.1], n) + [n]
  {
    var q := MoveTarget(m, n, ddx, ddy);
    Relocate(m, n, Redrawn(m.nodes[n], PosCell(m, q), q))
  }

  /** Cell positions grow with the index on each axis. */
  lemma CellPosMonotone(m: Map, i: int, j: int, i2: int, j2: int)
    requires m.cs > 0 && i <= i2 && j <= j2
    ensures CellPosR(m, i, j).0 <= CellPosR(m, i2, j2).0 && CellPosR(m, i, j).1 <= CellPosR(m, i2, j2).1
  {
    Numeric.MulLeInt(i, i2, m.cs);
    Numeric.MulLeInt(j, j2, m.cs);
  }

  /** A cell position rounds back to its own cell. */
  lemma PosCellAtCell(m: Map, i: int, j: int)
    requires m.cols > 0 && m.rows > 0 && m.cs > 0 && m.InGrid(i, j)
    ensures PosCell(m, CellPosR(m, i, j)) == (i, j)
  {
    AxisIndexAtCell(m.cs, i);
    AxisIndexAtCell(m.cs, j);
    assert CellPosR(m, i, j).0 - m.padX as real == (i * m.cs) as real;
    assert CellPosR(m, i, j).1 - m.padY as real == (j * m.cs) as real;
  }

  /** A position one cell to the right of a cell position rounds to the next cell. */
  lemma PosCellNextRight(m: Map, i: int, j: int)
    requires m.cols > 0 && m.rows > 0 && m.cs > 0 && m.InGrid(i, j) && m.InGrid(i + 1, j)
    ensures PosCell(m, (CellPosR(m, i, j).0 + m.cs as real, CellPosR(m, i, j).1)) == (i + 1, j)
  {
    AxisIndexAtCell(m.cs, i + 1);
    AxisIndexAtCell(m.cs, j);
    assert CellPosR(m, i, j).0 + m.cs as real - m.padX as real == ((i + 1) * m.cs) as real;
    assert CellPosR(m, i, j).1 - m.padY as real == (j * m.cs) as real;
  }

  /**
   * From the position of cell `(i, j)`, the target of a move by nothing
   * rounds to `(i, j)`, and that of a move by one cell to the right rounds
   * to `(i + 1, j)` when that cell exists.
   */
  lemma MoveTargetOneCellRight(m: Map, n: NodeId, i: int, j: int)
    requires n in m.nodes && m.cs > 0 && m.InGrid(i, j) && m.InGrid(i + 1, j)
    requires GetNodePos(m, n) == CellPosR(m, i, j)
    ensures PosCell(m, MoveTarget(m, n, m.cs as real, 0.0)) == (i + 1, j)
    ensures PosCell(m, MoveTarget(m, n, 0.0, 0.0)) == (i, j)
  {
    var p := CellPosR(m, i, j);
    CellPosMonotone(m, 0, 0, i, j);
    CellPosMonotone(m, i + 1, j, m.cols - 1, m.rows - 1);
    assert CellPosR(m, i + 1, j).0 == p.0 + m.cs as real;
    assert MoveTarget(m, n, m.cs as real, 0.0) == (p.0 + m.cs as real, p.1);
    assert MoveTarget(m, n, 0.0, 0.0) == p;
    PosCellNextRight(m, i, j);
    PosCellAtCell(m, i, j);
  }

  /**
   * Starting from the position of its own cell `(i, j)`, a node that
   * `move_pos` moves by nothing stays in `(i, j)`, and one it moves by
   * exactly one cell to the right lands in `(i + 1, j)` when that cell exists.
   */
  lemma MovePosOneCellRight(m: Map, n: NodeId, i: int, j: int)
    requires Valid(m) && n in m.nodes && m.CellSize() > 0
    requires m.InGrid(i, j) && m.InGrid(i + 1, j)
    requires GetNodePos(m, n) == CellPosR(m, i, j)
    ensures GetCell(MovePos(m, n, m.cs as real, 0.0), n) == Some((i + 1, j))
    ensures GetCell(MovePos(m, n, 0.0, 0.0), n) == Some((i, j))
  {
    MoveTargetOneCellRight(m, n, i, j);
  }

  /**
   * The entry `on_resize` gives a node: delta and size are the stored
   * originals times the new ratio, and it is drawn at its cell's new
   * position plus that delta; the z-index is kept.
   */
  function Rescaled(e: Entry, p: (real, real), ratio: real): (r: Entry)
    ensures r.cell == e.cell && r.origDelta == e.origDelta && r.origSize == e.origSize && r.origZ == e.origZ
    ensures r.box.z == e.box.z
    ensures r.delta == (e.origDelta.0 * ratio, e.origDelta.1 * ratio)
    ensures r.box.w == e.origSize.0 * ratio && r.box.h == e.origSize.1 * ratio
    ensures Anchor(r) == p
  {
    var d := (e.origDelta.0 * ratio, e.origDelta.1 * ratio);
    e.(delta := d, box := Box(p.0 + d.0, p.1 + d.1, e.origSize.0 * ratio, e.origSize.1 * ratio, e.box.z))
  }

  /**
   * `on_resize`: the container takes its new pixel size, recomputes cell size
   * and padding, and redraws every tracked node (`Rescaled`). The source
   * walks the grid; by `Valid` it meets every tracked node exactly once, so
   * the result is a per-node map. Cells, lists and stored originals do not
   * change.
   */
  function OnResize(m: Map, width: int, height: int): (r: Map)
    requires Valid(m)
    ensures Valid(r) && Sized(r)
    ensures r.grid == m.grid && r.nodes.Keys == m.nodes.Keys && (r.width, r.height) == (width, height)
    ensures r.origCellSize == m.origCellSize
    ensures forall n :: n in r.nodes ==> r.nodes[n] == Rescaled(m.nodes[n], CellPosR(r, m.nodes[n].cell.0, m.nodes[n].cell.1), r.Ratio())
  {
    var mt := Metrics(width, height, m.cols, m.rows);
    var m1 := m.(width := width, height := height, cs := mt.0, padX := mt.1, padY := mt.2);
    var ratio := m1.Ratio();
    var t := map n | n in m.nodes :: Rescaled(m.nodes[n], PosOf(mt, m.nodes[n].cell.0, m.nodes[n].cell.1), ratio);
    assert forall n :: n in t ==> t[n].cell == m.nodes[n].cell;
    m1.(nodes := t)
  }

  /**
   * A resize keeps every node in its cell and redraws it there: its
   * delta-free position is the new position of its cell.
   */
  lemma ResizeKeepsAnchors(m: Map, width: int, height: int, n: NodeId)
    requires Valid(m) && n in m.nodes
    ensures var r := OnResize(m, width, height);
            var c := m.nodes[n].cell;
            GetCell(r, n) == Some(c) && GetNodePos(r, n) == CellPosR(r, c.0, c.1)
  {
    var r := OnResize(m, width, height);
    var o := m.nodes[n];
    var e := r.nodes[n];
    assert e == Rescaled(o, CellPosR(r, o.cell.0, o.cell.1), r.Ratio());
    assert e.cell == o.cell;
    assert GetNodePos(r, n) == Anchor(e);
  }

  /** Rescaling by the ratio an entry's originals were stored with gives back the delta and size they came from. */
  lemma RescaleRoundTrip(o: Entry, p: (real, real), ratio: real, d: (real, real), w: real, h: real)
    requires o.origDelta.0 * ratio == d.0 && o.origDelta.1 * ratio == d.1
    requires o.origSize.0 * ratio == w && o.origSize.1 * ratio == h
    ensures var e := Rescaled(o, p, ratio);
            e.delta == d && e.box.w == w && e.box.h == h
  {
  }

  /** Rescaling a fresh entry by the ratio it was stored with gives back its delta and size. */
  lemma RescaleNewEntry(c: Cell, p: (real, real), dx: real, dy: real, b: Box, ratio: real, p2: (real, real))
    requires ratio > 0.0
    ensures var e := Rescaled(NewEntry(c, p, dx, dy, b, ratio), p2, ratio);
            e.delta == (dx, dy) && e.box.w == b.w && e.box.h == b.h
  {
    RescaleRoundTrip(NewEntry(c, p, dx, dy, b, ratio), p2, ratio, (dx, dy), b.w, b.h);
  }

  /**
   * The originals are stored divided by the ratio at add time, so a resize
   * that keeps the cell size gives the node back the delta and size it was
   * added with, whatever the ratio was when it was added.
   */
  lemma AddThenResizeSameCell(m: Map, n: NodeId, x: int, y: int, dx: real, dy: real, b: Box, width: int, height: int)
    requires Valid(m) && n !in m.nodes && m.InGrid(x, y) && m.CellSize() > 0
    requires Metrics(width, height, m.cols, m.rows).0 == m.CellSize()
    ensures var r := OnResize(AddNode(m, n, x, y, dx, dy, b), width, height);
            r.nodes[n].delta == (dx, dy) && r.nodes[n].box.w == b.w && r.nodes[n].box.h == b.h
  {
    var o := NewEntry((x, y), CellPosR(m, x, y), dx, dy, b, m.Ratio());
    var a := AddNode(m, n, x, y, dx, dy, b);
    assert a.nodes[n] == o;
    var r := OnResize(a, width, height);
    assert r.Ratio() == m.Ratio();
    assert r.nodes[n] == Rescaled(o, CellPosR(r, x, y), m.Ratio());
    RescaleNewEntry((x, y), CellPosR(m, x, y), dx, dy, b, m.Ratio(), CellPosR(r, x, y));
  }

  /** After `move_pos` the node is in exactly one list, that of its reported cell. */
  lemma MovePosStaysInOneCell(m: Map, n: NodeId, ddx: real, ddy: real)
    requires Valid(m) && n in m.nodes && m.CellSize() > 0
    ensures var r := MovePos(m, n, ddx, ddy);
            var c := r.nodes[n].cell;
            m.InGrid(c.0, c.1) &&
            forall i, j :: m.InGrid(i, j) ==> (n in r.grid[i][j] <==> (i, j) == c)
  {
    var r := MovePos(m, n, ddx, ddy);
    forall i, j | m.InGrid(i, j) ensures n in r.grid[i][j] <==> (i, j) == r.nodes[n].cell {
      InCell(r.grid, r.cols, r.rows, r.nodes, i, j, n);
    }
  }

  /** The lists `move_pos` does not append to: the old cell's loses the node, the others stay. */
  lemma MovePosOthers(m: Map, n: NodeId, ddx: real, ddy: real, i: int, j: int)
    requires Valid(m) && n in m.nodes && m.CellSize() > 0
    requires m.InGrid(i, j) && (i, j) != MovePos(m, n, ddx, ddy).nodes[n].cell
    ensures MovePos(m, n, ddx, ddy).grid[i][j] ==
              if (i, j) == m.nodes[n].cell then Seqs.RemoveFirst(m.grid[i][j], n) else m.grid[i][j]
  {
    var q := MoveTarget(m, n, ddx, ddy);
    RelocateOthers(m, n, Redrawn(m.nodes[n], PosCell(m, q), q), i, j);
  }
}
