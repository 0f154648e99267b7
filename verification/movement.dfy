/**
 * `move_object` of stagescene.py: a character asks to move by `(dx, dy)`
 * pixels; a move towards a blocked neighbour cell is cut short at the
 * origin of the mover's own cell, and an axis the mover does not travel
 * on is pulled back to the cell origin, which lines characters up with
 * the corridors when they turn. The adjusted delta goes to the tile map's
 * `move_pos`.
 */
module Movement {
  import opened Wrappers
  import opened Nodes
  import opened StageWorld
  import MapContainer
  import Grid
  import Seqs
  import Numeric

  /** Which of the four neighbour cells `is_blocked` reports as blocked for the mover. */
  datatype Sides = Sides(right: bool, left: bool, down: bool, up: bool)

  /** The four `is_blocked` queries around cell `c`. */
  function SidesOf(w: World, mover: NodeId, c: (int, int)): Sides {
    Sides(IsBlocked(w, mover, (c.0 + 1, c.1)), IsBlocked(w, mover, (c.0 - 1, c.1)),
          IsBlocked(w, mover, (c.0, c.1 + 1)), IsBlocked(w, mover, (c.0, c.1 - 1)))
  }

  /**
   * The collision check on one axis: a move of `d` towards a blocked side
   * is cut to at most the distance `toOrigin` back to the cell origin, and
   * the axis is then counted as blocked. `ahead` is the side a positive
   * move goes to, `behind` the other.
   */
  function Collide(d: real, toOrigin: real, ahead: bool, behind: bool): (r: (real, bool))
    ensures r.1 <==> (d > 0.0 && ahead) || (d < 0.0 && behind)
    ensures d > 0.0 && ahead ==> r.0 <= toOrigin && r.0 <= d && (r.0 == d || r.0 == toOrigin)
    ensures d < 0.0 && behind ==> r.0 >= toOrigin && r.0 >= d && (r.0 == d || r.0 == toOrigin)
    ensures !r.1 ==> r.0 == d
  {
    if d > 0.0 && ahead then (Numeric.MinR(toOrigin, d), true)
    else if d < 0.0 && behind then (if toOrigin >= d then toOrigin else d, true)
    else (d, false)
  }

  /**
   * The delta `move_object` hands to `move_pos`, given the distance
   * `(ox, oy)` from the mover's drawn position back to its cell origin;
   * `None` when nothing was asked for, in which case `move_pos` is not
   * called. Each axis is clamped first; an axis left at zero then snaps to
   * the cell origin unless the other axis was blocked.
   */
  function Adjust(dx: real, dy: real, ox: real, oy: real, s: Sides): (r: Option<(real, real)>)
    ensures r.None? <==> dx == 0.0 && dy == 0.0
    ensures r.Some? && dx > 0.0 && s.right ==> r.value.0 <= ox
    ensures r.Some? && dx < 0.0 && s.left ==> r.value.0 >= ox
    ensures r.Some? && dy > 0.0 && s.down ==> r.value.1 <= oy
    ensures r.Some? && dy < 0.0 && s.up ==> r.value.1 >= oy
    ensures r.Some? && ((dx > 0.0 && !s.right) || (dx < 0.0 && !s.left)) ==> r.value.0 == dx
    ensures r.Some? && ((dy > 0.0 && !s.down) || (dy < 0.0 && !s.up)) ==> r.value.1 == dy
    ensures r.Some? && dx == 0.0 ==> r.value.0 == if (dy > 0.0 && s.down) || (dy < 0.0 && s.up) then 0.0 else ox
    ensures r.Some? && dy == 0.0 ==> r.value.1 == if (dx > 0.0 && s.right) || (dx < 0.0 && s.left) then 0.0 else oy
  {
    if dx == 0.0 && dy == 0.0 then None
    else
      var cx := Collide(dx, ox, s.right, s.left);
      var cy := Collide(dy, oy, s.down, s.up);
      var nx := if cx.0 == 0.0 && !cy.1 then ox else cx.0;
      var ny := if cy.0 == 0.0 && !cx.1 then oy else cy.0;
      Some((nx, ny))
  }

  /**
   * The stage's cell lists and the tile map are the one `self.map` of the
   * source: the same size, the same tracked nodes at the same cells, and
   * the same list in every cell.
   */
  ghost predicate Mirrors(b: Grid.Board, m: MapContainer.Map) {
    && MapContainer.Valid(m)
    && b.cols == m.cols && b.rows == m.rows
    && b.at.Keys == m.nodes.Keys
    && (forall n :: n in b.at ==> b.at[n] == m.nodes[n].cell)
    && (forall x, y :: m.InGrid(x, y) ==> Grid.Occupants(b, (x, y)) == m.grid[x][y])
  }

  /** The list bookkeeping of `move_pos` on the stage's cell lists: out of the old cell's list, appended to the new one's. */
  function Relist(b: Grid.Board, n: NodeId, c: Grid.Cell): (r: Grid.Board)
    ensures r.at == b.at[n := c] && r.cols == b.cols && r.rows == b.rows
  {
    Grid.Add(Grid.Remove(b, n), n, c)
  }

  /** The delta `move_object` hands to `move_pos` for node `n`, measured from its drawn position to its cell's origin. */
  function Delta(w: World, m: MapContainer.Map, n: NodeId, dx: real, dy: real): (r: Option<(real, real)>)
    requires n in m.nodes
    ensures r.None? <==> dx == 0.0 && dy == 0.0
  {
    var c := m.nodes[n].cell;
    var p := MapContainer.GetNodePos(m, n);
    var o := MapContainer.CellPosR(m, c.0, c.1);
    Adjust(dx, dy, o.0 - p.0, o.1 - p.1, SidesOf(w, n, c))
  }

  /** `move_pos` by `d` on the tile map, with the stage's cell lists following the node. */
  function Shift(b: Grid.Board, m: MapContainer.Map, n: NodeId, d: (real, real)): (r: (Grid.Board, MapContainer.Map))
    requires MapContainer.Valid(m) && n in m.nodes && m.CellSize() > 0
    ensures MapContainer.Valid(r.1) && MapContainer.SameFrame(r.1, m) && r.1.nodes.Keys == m.nodes.Keys
    ensures r.0.at == b.at[n := r.1.nodes[n].cell]
  {
    var m2 := MapContainer.MovePos(m, n, d.0, d.1);
    (Relist(b, n, m2.nodes[n].cell), m2)
  }

  /**
   * `move_object(node, dx, dy)`: reads the mover's cell, its drawn
   * position and its cell's origin, asks `is_blocked` about the neighbours,
   * and moves it by the adjusted delta; the stage's cell lists follow the
   * mover to its new cell, nothing else of the stage changes. An untracked
   * node makes `get_cell` raise and a zero cell size makes `move_pos`
   * divide by zero, hence the requirements.
   */
  function MoveObject(w: World, m: MapContainer.Map, n: NodeId, dx: real, dy: real): (r: (World, MapContainer.Map))
    requires MapContainer.Valid(m) && n in m.nodes && m.CellSize() > 0
    ensures MapContainer.Valid(r.1) && MapContainer.SameFrame(r.1, m) && r.1.nodes.Keys == m.nodes.Keys
    ensures r.0 == w.(board := r.0.board)
    ensures dx == 0.0 && dy == 0.0 ==> r == (w, m)
    ensures dx != 0.0 || dy != 0.0 ==> r.0.board.at == w.board.at[n := r.1.nodes[n].cell]
  {
    match Delta(w, m, n, dx, dy)
    case None => (w, m)
    case Some(d) =>
      var s := Shift(w.board, m, n, d);
      (w.(board := s.0), s.1)
  }

  /** Moving a node on the map keeps the map sound: it leaves one list and joins another exactly once. */
  lemma MoveObjectSound(w: World, m: MapContainer.Map, n: NodeId, dx: real, dy: real)
    requires MapContainer.Valid(m) && n in m.nodes && m.CellSize() > 0 && n in w.board.at
    ensures Sound(w) ==> Sound(MoveObject(w, m, n, dx, dy).0)
  {
    var a := Delta(w, m, n, dx, dy);
    if Sound(w) && a.Some? {
      var s := Shift(w.board, m, n, a.value);
      RelistConsistent(w.board, n, s.1.nodes[n].cell);
    }
  }

  lemma RelistConsistent(b: Grid.Board, n: NodeId, c: Grid.Cell)
    requires Grid.Consistent(b) && n in b.at
    ensures Grid.Consistent(Relist(b, n, c))
  {
    Grid.RemoveKeepsConsistent(b, n);
    Grid.AddKeepsConsistent(Grid.Remove(b, n), n, c);
  }

  /** `move_pos` keeps the stage's cell lists and the tile map in step. */
  lemma ShiftMirrors(b: Grid.Board, m: MapContainer.Map, n: NodeId, d: (real, real))
    requires Mirrors(b, m) && n in m.nodes && m.CellSize() > 0
    ensures Mirrors(Shift(b, m, n, d).0, Shift(b, m, n, d).1)
  {
    ShiftTracks(b, m, n, d);
    ShiftLists(b, m, n, d);
  }

  /** After `move_pos` both sides track the same nodes at the same cells. */
  lemma ShiftTracks(b: Grid.Board, m: MapContainer.Map, n: NodeId, d: (real, real))
    requires MapContainer.Valid(m) && n in m.nodes && m.CellSize() > 0
    requires b.at.Keys == m.nodes.Keys && forall k :: k in b.at ==> b.at[k] == m.nodes[k].cell
    ensures var r := Shift(b, m, n, d);
            r.0.at.Keys == r.1.nodes.Keys && forall k :: k in r.0.at ==> r.0.at[k] == r.1.nodes[k].cell
  {
    var q := MapContainer.MoveTarget(m, n, d.0, d.1);
    assert Shift(b, m, n, d).1.nodes == m.nodes[n := MapContainer.Redrawn(m.nodes[n], MapContainer.PosCell(m, q), q)];
  }

  /** After `move_pos` both sides hold the same list in every cell. */
  lemma ShiftLists(b: Grid.Board, m: MapContainer.Map, n: NodeId, d: (real, real))
    requires Mirrors(b, m) && n in m.nodes && m.CellSize() > 0
    ensures forall x, y :: m.InGrid(x, y) ==> Grid.Occupants(Shift(b, m, n, d).0, (x, y)) == Shift(b, m, n, d).1.grid[x][y]
  {
    forall x, y | m.InGrid(x, y)
      ensures Grid.Occupants(Shift(b, m, n, d).0, (x, y)) == Shift(b, m, n, d).1.grid[x][y]
    {
      ShiftCell(b, m, n, d, x, y);
    }
  }

  /** One cell list after `move_pos`, on the stage and on the tile map. */
  lemma ShiftCell(b: Grid.Board, m: MapContainer.Map, n: NodeId, d: (real, real), x: int, y: int)
    requires MapContainer.Valid(m) && n in m.nodes && m.CellSize() > 0 && m.InGrid(x, y)
    requires n in b.at && b.at[n] == m.nodes[n].cell
    requires Grid.Occupants(b, (x, y)) == m.grid[x][y]
    ensures Grid.Occupants(Shift(b, m, n, d).0, (x, y)) == Shift(b, m, n, d).1.grid[x][y]
  {
    var m2 := MapContainer.MovePos(m, n, d.0, d.1);
    var c0 := m.nodes[n].cell;
    var c1 := m2.nodes[n].cell;
    Grid.RemoveCells(b, n);
    if (x, y) == c1 {
      if c1 != c0 {
        MapContainer.InCell(m.grid, m.cols, m.rows, m.nodes, x, y, n);
      }
    } else {
      MapContainer.MovePosOthers(m, n, d.0, d.1, x, y);
    }
  }

  /**
   * A move keeps the stage and the tile map in step: the lists of the
   * cells the mover left and entered change alike on both, and the mover
   * is tracked at its new cell on both.
   */
  lemma MoveObjectMirrors(w: World, m: MapContainer.Map, n: NodeId, dx: real, dy: real)
    requires Mirrors(w.board, m) && n in m.nodes && m.CellSize() > 0
    ensures Mirrors(MoveObject(w, m, n, dx, dy).0.board, MoveObject(w, m, n, dx, dy).1)
  {
    var a := Delta(w, m, n, dx, dy);
    if a.Some? {
      ShiftMirrors(w.board, m, n, a.value);
    }
  }

  /**
   * The position `move_pos` gives the mover, before rounding to a cell,
   * when `s` says which neighbours block it: the adjusted delta added to
   * the drawn position and clamped into the box of cell positions.
   */
  function Target(m: MapContainer.Map, n: NodeId, dx: real, dy: real, s: Sides): (real, real)
    requires n in m.nodes
  {
    var c := m.nodes[n].cell;
    var p := MapContainer.GetNodePos(m, n);
    var o := MapContainer.CellPosR(m, c.0, c.1);
    match Adjust(dx, dy, o.0 - p.0, o.1 - p.1, s)
    case None => p
    case Some(d) => MapContainer.MoveTarget(m, n, d.0, d.1)
  }

  /** The mover ends at `Target`. */
  lemma MoveObjectLands(w: World, m: MapContainer.Map, n: NodeId, dx: real, dy: real)
    requires MapContainer.Valid(m) && n in m.nodes && m.CellSize() > 0
    requires dx != 0.0 || dy != 0.0
    ensures var r := MoveObject(w, m, n, dx, dy).1;
            n in r.nodes && MapContainer.GetNodePos(r, n) == Target(m, n, dx, dy, SidesOf(w, n, m.nodes[n].cell))
  {
  }

  /** After any move the mover's cell is the one its new position rounds to. */
  lemma MoveObjectCell(w: World, m: MapContainer.Map, n: NodeId, dx: real, dy: real)
    requires MapContainer.Valid(m) && n in m.nodes && m.CellSize() > 0
    requires dx != 0.0 || dy != 0.0
    ensures var r := MoveObject(w, m, n, dx, dy).1;
            n in r.nodes && r.nodes[n].cell == MapContainer.PosCell(m, MapContainer.GetNodePos(r, n))
  {
  }

  /** An offset at most `k` cells from the padding rounds to a cell index at most `k`. */
  lemma AxisIndexAtMost(offset: real, cs: int, k: int)
    requires cs > 0 && k >= 0 && offset <= (k * cs) as real
    ensures MapContainer.AxisIndex(offset, cs) <= k
  {
    var c := cs as real;
    var s := offset + (cs / 2) as real;
    assert s < (k as real + 1.0) * c by {
      assert (k * cs) as real == k as real * c;
      assert (cs / 2) as real < c;
      assert (k as real + 1.0) * c == k as real * c + c;
    }
    Numeric.TruncBelow(s, c, k);
  }

  /** An offset at least `k` cells from the padding rounds to a cell index at least `k`. */
  lemma AxisIndexAtLeast(offset: real, cs: int, k: int)
    requires cs > 0 && k >= 0 && offset >= (k * cs) as real
    ensures MapContainer.AxisIndex(offset, cs) >= k
  {
    var c := cs as real;
    var s := offset + (cs / 2) as real;
    assert s >= k as real * c by {
      assert (k * cs) as real == k as real * c;
    }
    Numeric.TruncAbove(s, c, k);
  }

  /** The clamp of `move_pos` never moves a coordinate across a bound lying inside the clamping box. */
  lemma ClampKeepsSide(nx: real, ny: real, lox: real, loy: real, hix: real, hiy: real, cx: real, cy: real)
    requires lox <= cx <= hix && loy <= cy <= hiy
    ensures var p := MapContainer.ClampOnce(nx, ny, lox, loy, hix, hiy);
            (nx <= cx ==> p.0 <= cx) && (nx >= cx ==> p.0 >= cx) &&
            (ny <= cy ==> p.1 <= cy) && (ny >= cy ==> p.1 >= cy)
  {
  }

  /** A position no further right (down) than a cell's position rounds to a column (row) no further. */
  lemma CellNoFurther(m: MapContainer.Map, q: (real, real), c: (int, int))
    requires m.cols > 0 && m.rows > 0 && m.cs > 0 && m.InGrid(c.0, c.1)
    ensures q.0 <= MapContainer.CellPosR(m, c.0, c.1).0 ==> MapContainer.PosCell(m, q).0 <= c.0
    ensures q.1 <= MapContainer.CellPosR(m, c.0, c.1).1 ==> MapContainer.PosCell(m, q).1 <= c.1
  {
    var o := MapContainer.CellPosR(m, c.0, c.1);
    if q.0 <= o.0 {
      assert q.0 - m.padX as real <= (c.0 * m.cs) as real;
      AxisIndexAtMost(q.0 - m.padX as real, m.cs, c.0);
    }
    if q.1 <= o.1 {
      assert q.1 - m.padY as real <= (c.1 * m.cs) as real;
      AxisIndexAtMost(q.1 - m.padY as real, m.cs, c.1);
    }
  }

  /** A position no further left (up) than a cell's position rounds to a column (row) no further. */
  lemma CellNoCloser(m: MapContainer.Map, q: (real, real), c: (int, int))
    requires m.cols > 0 && m.rows > 0 && m.cs > 0 && m.InGrid(c.0, c.1)
    ensures q.0 >= MapContainer.CellPosR(m, c.0, c.1).0 ==> MapContainer.PosCell(m, q).0 >= c.0
    ensures q.1 >= MapContainer.CellPosR(m, c.0, c.1).1 ==> MapContainer.PosCell(m, q).1 >= c.1
  {
    var o := MapContainer.CellPosR(m, c.0, c.1);
    if q.0 >= o.0 {
      assert q.0 - m.padX as real >= (c.0 * m.cs) as real;
      AxisIndexAtLeast(q.0 - m.padX as real, m.cs, c.0);
    }
    if q.1 >= o.1 {
      assert q.1 - m.padY as real >= (c.1 * m.cs) as real;
      AxisIndexAtLeast(q.1 - m.padY as real, m.cs, c.1);
    }
  }

  /** A requested move lands on the adjusted delta added to the drawn position, clamped to the grid's box. */
  lemma TargetClamps(m: MapContainer.Map, n: NodeId, dx: real, dy: real, s: Sides)
    requires n in m.nodes && (dx != 0.0 || dy != 0.0)
    ensures var c := m.nodes[n].cell;
            var p := MapContainer.GetNodePos(m, n);
            var o := MapContainer.CellPosR(m, c.0, c.1);
            var lo := MapContainer.CellPosR(m, 0, 0);
            var hi := MapContainer.CellPosR(m, m.cols - 1, m.rows - 1);
            var a := Adjust(dx, dy, o.0 - p.0, o.1 - p.1, s);
            a.Some? && Target(m, n, dx, dy, s) == MapContainer.ClampOnce(p.0 + a.value.0, p.1 + a.value.1, lo.0, lo.1, hi.0, hi.1)
  {
  }

  /**
   * The collision rule in pixels: whatever the delta, a move towards a
   * blocked side ends at or before the mover's cell origin on that axis.
   */
  lemma TargetHolds(m: MapContainer.Map, n: NodeId, dx: real, dy: real, s: Sides)
    requires n in m.nodes && m.cols > 0 && m.rows > 0 && m.cs > 0
    requires m.InGrid(m.nodes[n].cell.0, m.nodes[n].cell.1)
    ensures var c := m.nodes[n].cell;
            var o := MapContainer.CellPosR(m, c.0, c.1);
            var q := Target(m, n, dx, dy, s);
            (dx > 0.0 && s.right ==> q.0 <= o.0) &&
            (dx < 0.0 && s.left ==> q.0 >= o.0) &&
            (dy > 0.0 && s.down ==> q.1 <= o.1) &&
            (dy < 0.0 && s.up ==> q.1 >= o.1)
  {
    var c := m.nodes[n].cell;
    var p := MapContainer.GetNodePos(m, n);
    var o := MapContainer.CellPosR(m, c.0, c.1);
    var lo := MapContainer.CellPosR(m, 0, 0);
    var hi := MapContainer.CellPosR(m, m.cols - 1, m.rows - 1);
    var q := Target(m, n, dx, dy, s);
    MapContainer.CellPosMonotone(m, 0, 0, c.0, c.1);
    MapContainer.CellPosMonotone(m, c.0, c.1, m.cols - 1, m.rows - 1);
    if dx != 0.0 || dy != 0.0 {
      TargetClamps(m, n, dx, dy, s);
      var d := Adjust(dx, dy, o.0 - p.0, o.1 - p.1, s).value;
      ClampKeepsSide(p.0 + d.0, p.1 + d.1, lo.0, lo.1, hi.0, hi.1, o.0, o.1);
    }
  }

  /**
   * Moving towards a neighbour cell that `is_blocked` reports, for any
   * delta, the mover never passes its cell's origin on that axis and its
   * cell on that axis does not advance towards the blocked cell.
   */
  lemma BlockedSideHolds(w: World, m: MapContainer.Map, n: NodeId, dx: real, dy: real)
    requires MapContainer.Valid(m) && n in m.nodes && m.CellSize() > 0
    ensures var c := m.nodes[n].cell;
            var o := MapContainer.CellPosR(m, c.0, c.1);
            var r := MoveObject(w, m, n, dx, dy).1;
            n in r.nodes &&
            (dx > 0.0 && IsBlocked(w, n, (c.0 + 1, c.1)) ==>
               MapContainer.GetNodePos(r, n).0 <= o.0 && r.nodes[n].cell.0 <= c.0) &&
            (dx < 0.0 && IsBlocked(w, n, (c.0 - 1, c.1)) ==>
               MapContainer.GetNodePos(r, n).0 >= o.0 && r.nodes[n].cell.0 >= c.0) &&
            (dy > 0.0 && IsBlocked(w, n, (c.0, c.1 + 1)) ==>
               MapContainer.GetNodePos(r, n).1 <= o.1 && r.nodes[n].cell.1 <= c.1) &&
            (dy < 0.0 && IsBlocked(w, n, (c.0, c.1 - 1)) ==>
               MapContainer.GetNodePos(r, n).1 >= o.1 && r.nodes[n].cell.1 >= c.1)
  {
    var c := m.nodes[n].cell;
    var s := SidesOf(w, n, c);
    if dx != 0.0 || dy != 0.0 {
      MoveObjectCell(w, m, n, dx, dy);
      MoveObjectLands(w, m, n, dx, dy);
      assert m.InGrid(c.0, c.1);
      TargetHolds(m, n, dx, dy, s);
      var r := MoveObject(w, m, n, dx, dy).1;
      CellNoFurther(m, MapContainer.GetNodePos(r, n), c);
      CellNoCloser(m, MapContainer.GetNodePos(r, n), c);
    }
  }

  /**
   * Position `q` is where a free horizontal move of `dx` should leave node
   * `n`: at the height of its cell's row, and, while the target stays
   * within the grid, exactly `dx` further along.
   */
  predicate SnappedTo(m: MapContainer.Map, n: NodeId, dx: real, q: (real, real))
    requires n in m.nodes
  {
    var c := m.nodes[n].cell;
    var p := MapContainer.GetNodePos(m, n);
    var lo := MapContainer.CellPosR(m, 0, 0);
    var hi := MapContainer.CellPosR(m, m.cols - 1, m.rows - 1);
    q.1 == MapContainer.CellPosR(m, c.0, c.1).1 && (lo.0 <= p.0 + dx <= hi.0 ==> q.0 == p.0 + dx)
  }

  /** A horizontal move towards a side `is_blocked` reports free lines the mover up with its row. */
  lemma TargetSnaps(w: World, m: MapContainer.Map, n: NodeId, dx: real)
    requires MapContainer.Valid(m) && n in m.nodes && m.CellSize() > 0
    requires var c := m.nodes[n].cell;
             (dx > 0.0 && !IsBlocked(w, n, (c.0 + 1, c.1))) || (dx < 0.0 && !IsBlocked(w, n, (c.0 - 1, c.1)))
    ensures SnappedTo(m, n, dx, Target(m, n, dx, 0.0, SidesOf(w, n, m.nodes[n].cell)))
  {
    var c := m.nodes[n].cell;
    var s := SidesOf(w, n, c);
    var p := MapContainer.GetNodePos(m, n);
    var o := MapContainer.CellPosR(m, c.0, c.1);
    MapContainer.CellPosMonotone(m, 0, 0, c.0, c.1);
    MapContainer.CellPosMonotone(m, c.0, c.1, m.cols - 1, m.rows - 1);
    assert Adjust(dx, 0.0, o.0 - p.0, o.1 - p.1, s).value == (dx, o.1 - p.1);
  }

  /** `TargetSnaps` for `move_object` itself. */
  lemma FreeHorizontalMoveSnaps(w: World, m: MapContainer.Map, n: NodeId, dx: real)
    requires MapContainer.Valid(m) && n in m.nodes && m.CellSize() > 0
    requires var c := m.nodes[n].cell;
             (dx > 0.0 && !IsBlocked(w, n, (c.0 + 1, c.1))) || (dx < 0.0 && !IsBlocked(w, n, (c.0 - 1, c.1)))
    ensures var r := MoveObject(w, m, n, dx, 0.0).1;
            n in r.nodes && SnappedTo(m, n, dx, MapContainer.GetNodePos(r, n))
  {
    MoveObjectLands(w, m, n, dx, 0.0);
    TargetSnaps(w, m, n, dx);
  }
}
