/**
 * The stage of the bomberman prototype (bomberman/bomberman.py, with the
 * same grid arithmetic in bomberman/main.py): a grid of square cells
 * centred inside the stage's margins, a player two cells tall whose cell is
 * worked out from its position, cells that light up while the player
 * stands on them, and a resize that rescales everything.
 */
module ProtoStage {
  import opened Wrappers
  import Numeric
  import ProtoSched

  /** The stage margins, in the order `margin[0..4]` is read: top, right, bottom, left. */
  datatype Margin = Margin(top: int, right: int, bottom: int, left: int)

  /** The derived grid metrics: the cell size and the grid's top-left corner. */
  datatype Metrics = Metrics(cellSize: int, top: int, left: int)

  /** The room left for the grid across, once the side margins are taken off. */
  function Across(width: int, m: Margin): int { width - m.right - m.left }

  /** The room left for the grid down, once the top and bottom margins are taken off. */
  function Down(height: int, m: Margin): int { height - m.top - m.bottom }

  /** A `cs`-sized grid of `cols` by `rows` cells fits the room available. */
  predicate Fits(cs: int, width: int, height: int, m: Margin, cols: nat, rows: nat) {
    cs * cols <= Across(width, m) && cs * rows <= Down(height, m)
  }

  /** `2 * t` is `free` rounded down to even: `t` is the floor of half of `free`. */
  predicate HalfOf(t: int, free: int) {
    2 * t <= free < 2 * t + 2
  }

  /**
   * `__update_metrics`: the cell size is the smaller of the two integer
   * quotients of the room by the cell counts, and the grid is centred with
   * floor division. A zero cell count divides by zero (`None`).
   */
  function StageMetrics(width: int, height: int, m: Margin, cols: nat, rows: nat): (r: Option<Metrics>)
    ensures r.None? <==> cols == 0 || rows == 0
    ensures r.Some? ==> r.value.cellSize <= Across(width, m) / cols && r.value.cellSize <= Down(height, m) / rows
  {
    if cols == 0 || rows == 0 then None
    else
      var cs := Numeric.MinI(Numeric.FloorDiv(Across(width, m), cols), Numeric.FloorDiv(Down(height, m), rows));
      Some(Metrics(cs, Numeric.FloorDiv(height - cs * rows, 2), Numeric.FloorDiv(width - cs * cols, 2)))
  }

  /**
   * The cell size is the largest for which the grid fits, and the grid sits
   * in the middle of the stage, with any odd pixel left over on the right
   * and at the bottom.
   */
  lemma MetricsFit(width: int, height: int, m: Margin, cols: nat, rows: nat)
    requires cols > 0 && rows > 0
    ensures var mt := StageMetrics(width, height, m, cols, rows).value;
            Fits(mt.cellSize, width, height, m, cols, rows) &&
            !Fits(mt.cellSize + 1, width, height, m, cols, rows) &&
            HalfOf(mt.top, height - mt.cellSize * rows) &&
            HalfOf(mt.left, width - mt.cellSize * cols)
  {
    var mt := StageMetrics(width, height, m, cols, rows).value;
    var cs := mt.cellSize;
    var q1 := Numeric.FloorDiv(Across(width, m), cols);
    var q2 := Numeric.FloorDiv(Down(height, m), rows);
    assert cs == q1 || cs == q2;
    if cs < q1 { Numeric.MulLeInt(cs, q1, cols); }
    if cs < q2 { Numeric.MulLeInt(cs, q2, rows); }
    assert (cs + 1) * cols == cs * cols + cols;
    assert (cs + 1) * rows == cs * rows + rows;
  }

  /** `__get_cell_pos`: the top-left corner of cell `(x, y)`. */
  function CellPos(mt: Metrics, x: int, y: int): (p: (int, int))
    ensures p.0 - mt.left == mt.cellSize * x && p.1 - mt.top == mt.cellSize * y
  {
    (mt.left + mt.cellSize * x, mt.top + mt.cellSize * y)
  }

  /** Neighbouring cells abut: the next column starts one cell size further right, the next row one further down. */
  lemma CellsAbut(mt: Metrics, x: int, y: int)
    ensures CellPos(mt, x + 1, y).0 == CellPos(mt, x, y).0 + mt.cellSize
    ensures CellPos(mt, x, y + 1).1 == CellPos(mt, x, y).1 + mt.cellSize
  {
    assert mt.cellSize * (x + 1) == mt.cellSize * x + mt.cellSize;
    assert mt.cellSize * (y + 1) == mt.cellSize * y + mt.cellSize;
  }

  /**
   * With non-negative margins that leave room, every cell of the grid lies
   * inside the stage.
   */
  lemma CellsInsideStage(width: int, height: int, m: Margin, cols: nat, rows: nat, x: int, y: int)
    requires cols > 0 && rows > 0
    requires m.top >= 0 && m.right >= 0 && m.bottom >= 0 && m.left >= 0
    requires Across(width, m) >= 0 && Down(height, m) >= 0
    requires 0 <= x < cols && 0 <= y < rows
    ensures var mt := StageMetrics(width, height, m, cols, rows).value;
            var p := CellPos(mt, x, y);
            0 <= p.0 && p.0 + mt.cellSize <= width && 0 <= p.1 && p.1 + mt.cellSize <= height
  {
    var mt := StageMetrics(width, height, m, cols, rows).value;
    var cs := mt.cellSize;
    MetricsFit(width, height, m, cols, rows);
    CellSizeNonNeg(width, height, m, cols, rows);
    CellInSpan(mt.left, cs, cols, x, width);
    CellInSpan(mt.top, cs, rows, y, height);
  }

  /** Margins that leave room give a non-negative cell size. */
  lemma CellSizeNonNeg(width: int, height: int, m: Margin, cols: nat, rows: nat)
    requires cols > 0 && rows > 0
    requires Across(width, m) >= 0 && Down(height, m) >= 0
    ensures StageMetrics(width, height, m, cols, rows).value.cellSize >= 0
  {
  }

  /** One axis of `CellsInsideStage`: a centred span of `n` cells holds each of its cells. */
  lemma CellInSpan(start: int, cs: int, n: nat, k: int, total: int)
    requires cs >= 0 && 0 <= k < n
    requires HalfOf(start, total - cs * n) && cs * n <= total
    ensures 0 <= start + cs * k && start + cs * k + cs <= total
  {
    if cs > 0 {
      Numeric.MulLeInt(k + 1, n, cs);
      assert (k + 1) * cs == k * cs + cs;
      Numeric.MulLeInt(0, k, cs);
    }
  }

  /**
   * `Player.__update_pos`: the player's cell from its top-left corner
   * `(x, y)`. The player is two cells tall, so its centre is half a cell
   * right and one and a half cells down; `origin` is the corner of cell
   * (0, 0) and the division is truncated by `int()`. A zero cell size
   * divides by zero (`None`).
   */
  function PlayerCell(x: real, y: real, cs: int, origin: (int, int)): (r: Option<(int, int)>)
    ensures r.None? <==> cs == 0
  {
    if cs == 0 then None
    else
      var c := cs as real;
      Some((Numeric.Trunc((x + c * 0.5 - origin.0 as real) / c),
            Numeric.Trunc((y + c * 1.5 - origin.1 as real) / c)))
  }

  /**
   * A player standing on cell `(i, j)` — its feet cell, one cell below its
   * corner — up to half a cell off in either direction, is reported on
   * that cell.
   */
  lemma StandingOnCell(i: nat, j: nat, dx: real, dy: real, cs: int, origin: (int, int), x: real, y: real)
    requires cs > 0
    requires -(cs as real) * 0.5 <= dx < cs as real * 0.5
    requires -(cs as real) * 0.5 <= dy < cs as real * 0.5
    requires x == origin.0 as real + cs as real * i as real + dx
    requires y == origin.1 as real + cs as real * (j as real - 1.0) + dy
    ensures PlayerCell(x, y, cs, origin) == Some((i, j))
  {
    var c := cs as real;
    var u := x + c * 0.5 - origin.0 as real;
    var v := y + c * 1.5 - origin.1 as real;
    assert u == i as real * c + (dx + c * 0.5) by {
      assert c * i as real == i as real * c;
    }
    assert v == j as real * c + (dy + c * 0.5) by {
      assert c * (j as real - 1.0) == j as real * c - c;
    }
    CellOfOffset(i, dx + c * 0.5, c, u);
    CellOfOffset(j, dy + c * 0.5, c, v);
  }

  /** One axis of `StandingOnCell`: `k` whole cells plus less than one more truncate to `k`. */
  lemma CellOfOffset(k: nat, d: real, c: real, u: real)
    requires c > 0.0 && 0.0 <= d < c && u == k as real * c + d
    ensures Numeric.Trunc(u / c) == k
  {
    assert (k as real + 1.0) * c == k as real * c + c;
    Numeric.TruncDivUnique(u, c, k);
  }

  /**
   * `int()` truncates toward zero, so a centre up to a whole cell to the
   * left of the grid is still reported in column 0.
   */
  lemma LeftOfGridIsColumnZero(x: real, y: real, cs: int, origin: (int, int))
    requires cs > 0
    requires -(cs as real) < x + cs as real * 0.5 - origin.0 as real < 0.0
    ensures PlayerCell(x, y, cs, origin).Some? && PlayerCell(x, y, cs, origin).value.0 == 0
  {
    var c := cs as real;
    var s := x + c * 0.5 - origin.0 as real;
    var q := s / c;
    Numeric.DivMul(s, c);
    assert q * c == s;
    Numeric.MulLtInv(-1.0, q, c);
    Numeric.MulLtInv(q, 0.0, c);
  }

  /** The distance a moving player covers in one tick. */
  function Stride(interval: real, speed: real, cs: int): real {
    interval * speed * cs as real
  }

  /**
   * `move_action`: one tick of movement in direction `dir`; any other
   * string leaves the player where it is.
   */
  function MoveStep(p: (real, real), dir: string, interval: real, speed: real, cs: int): (r: (real, real))
    ensures dir !in {"up", "down", "left", "right"} ==> r == p
    ensures dir in {"up", "down"} ==> r.0 == p.0
    ensures dir in {"left", "right"} ==> r.1 == p.1
  {
    var d := Stride(interval, speed, cs);
    if dir == "up" then (p.0, p.1 - d)
    else if dir == "down" then (p.0, p.1 + d)
    else if dir == "left" then (p.0 - d, p.1)
    else if dir == "right" then (p.0 + d, p.1)
    else p
  }

  /** The four direction names that `stop()` without an argument removes. */
  const Directions: seq<string> := ["up", "down", "left", "right"]

  /** `Player.move`: a looping, non-redrawing action named after the direction. */
  function Move(n: ProtoSched.PNode, dir: string): (r: ProtoSched.PNode)
    ensures dir in r.actions && r.actions[dir].loop && !r.actions[dir].update && !r.actions[dir].done
    ensures forall k :: k in n.actions && k != dir ==> k in r.actions && r.actions[k] == n.actions[k]
    ensures r.actions.Keys == n.actions.Keys + {dir}
  {
    ProtoSched.AddAction(n, dir, true, false)
  }

  /** Queues the removal of each name of `names` in turn. */
  function RemoveAll(n: ProtoSched.PNode, names: seq<string>): (r: ProtoSched.PNode)
    ensures r.actions == n.actions && r.anims == n.anims && r.animRemovals == n.animRemovals
    ensures r.actionRemovals == n.actionRemovals + (set k | k in names && k in n.actions)
    decreases |names|
  {
    if |names| == 0 then n
    else
      var r := RemoveAll(ProtoSched.RemoveAction(n, names[0]), names[1..]);
      assert forall k :: k in names <==> k == names[0] || k in names[1..];
      r
  }

  /**
   * `Player.stop`: with a direction (any non-empty string) only that
   * action is queued for removal; with none, or an empty string, all four
   * directions are.
   */
  function Stop(n: ProtoSched.PNode, dir: Option<string>): (r: ProtoSched.PNode)
    ensures r.actions == n.actions
    ensures dir.Some? && dir.value != "" ==>
              r.actionRemovals == n.actionRemovals + (if dir.value in n.actions then {dir.value} else {})
    ensures (dir.None? || dir.value == "") ==>
              r.actionRemovals == n.actionRemovals + (set k | k in Directions && k in n.actions)
  {
    if dir.Some? && dir.value != "" then ProtoSched.RemoveAction(n, dir.value)
    else RemoveAll(n, Directions)
  }

  /** Once the removals are flushed, a plain `stop()` has ended every movement and kept every other action. */
  lemma StopEndsAllMoves(n: ProtoSched.PNode)
    ensures var r := ProtoSched.FlushActions(Stop(n, None));
            (forall d :: d in Directions ==> d !in r.actions) &&
            (forall k :: k in n.actions && k !in n.actionRemovals && k !in Directions ==> k in r.actions)
  {
  }

  /** Moving and then stopping the same direction ends that movement at the next flush. */
  lemma MoveThenStop(n: ProtoSched.PNode, dir: string)
    requires dir != ""
    ensures dir !in ProtoSched.FlushActions(Stop(Move(n, dir), Some(dir))).actions
  {
  }

  /** A grid cell's lighting state. */
  datatype Cell = Cell(pos: (int, int), lighted: bool)

  /**
   * `Cell.on_tick` and `Cell.light`: the cell lights when the player has
   * arrived on it and goes dark when the player has left. Lighting adds the
   * looping `blink` animation (no delay, period 1); darkening queues `blink`
   * for removal and adds the one-shot `fade out` animation. The returned
   * flag is the argument `light` was called with, if it was called.
   */
  function CellTick(c: Cell, player: (int, int), n: ProtoSched.PNode): (r: (Cell, ProtoSched.PNode, Option<bool>))
    ensures r.0.pos == c.pos && r.0.lighted == (player == c.pos)
    ensures r.2 == (if r.0.lighted != c.lighted then Some(r.0.lighted) else None)
    ensures r.2 == Some(true) ==> "blink" in r.1.anims && r.1.anims["blink"].loop
    ensures r.2 == Some(false) ==> "fade out" in r.1.anims && !r.1.anims["fade out"].loop
    ensures r.2 == Some(false) && "blink" in n.anims ==> "blink" in r.1.animRemovals
    ensures r.2.None? ==> r.1 == n
  {
    if player == c.pos && !c.lighted then
      (c.(lighted := true), ProtoSched.AddAnimation(n, "blink", 0.0, 1.0, true), Some(true))
    else if player != c.pos && c.lighted then
      var n1 := ProtoSched.RemoveAnimation(n, "blink");
      (c.(lighted := false), ProtoSched.AddAnimation(n1, "fade out", 0.0, 1.0, false), Some(false))
    else (c, n, None)
  }

  /** The `light` calls a cell makes while the player walks through `path`, one position per tick. */
  function LightCalls(c: Cell, path: seq<(int, int)>): (r: seq<bool>)
    ensures |r| <= |path|
    decreases |path|
  {
    if |path| == 0 then []
    else
      var lit := path[0] == c.pos;
      var rest := LightCalls(c.(lighted := lit), path[1..]);
      if lit != c.lighted then [lit] + rest else rest
  }

  /**
   * Along any walk, a cell's `light` calls alternate — never two blinks or
   * two fades in a row — and the first one switches away from the state
   * the cell started in.
   */
  lemma {:induction false} LightCallsAlternate(c: Cell, path: seq<(int, int)>)
    ensures var r := LightCalls(c, path);
            (|r| > 0 ==> r[0] == !c.lighted) &&
            (forall i :: 0 <= i < |r| - 1 ==> r[i + 1] == !r[i])
    decreases |path|
  {
    if |path| > 0 {
      var lit := path[0] == c.pos;
      LightCallsAlternate(c.(lighted := lit), path[1..]);
    }
  }

  /** A walk that never reaches the cell leaves a dark cell dark: no `light` call at all. */
  lemma {:induction false} NeverVisitedNeverLit(c: Cell, path: seq<(int, int)>)
    requires !c.lighted
    requires forall i :: 0 <= i < |path| ==> path[i] != c.pos
    ensures LightCalls(c, path) == []
    decreases |path|
  {
    if |path| > 0 {
      NeverVisitedNeverLit(c.(lighted := false), path[1..]);
    }
  }

  /** A character's box: position and integer size. */
  datatype Box = Box(x: real, y: real, w: int, h: int)

  /** What a stage keeps between resizes: its size, margins, grid shape, metrics and characters. */
  datatype Stage = Stage(width: int, height: int, margin: Margin, cols: nat, rows: nat,
                         metrics: Metrics, characters: seq<Box>)

  /**
   * `Stage.on_resize`: the metrics are recomputed for the new size, and
   * each character is moved so that its offset from the grid corner scales
   * by the ratio of the new cell size to the old, its size truncated after
   * scaling. A zero cell count, or an old cell size of zero, divides by
   * zero (`None`). The cells themselves need no state: they always sit at
   * `CellPos` with the current metrics.
   */
  function OnResize(st: Stage, width: int, height: int): (r: Option<Stage>)
    ensures r.None? <==> st.cols == 0 || st.rows == 0 || st.metrics.cellSize == 0
    ensures r.Some? ==> r.value.metrics == StageMetrics(width, height, st.margin, st.cols, st.rows).value
    ensures r.Some? ==> |r.value.characters| == |st.characters| && r.value.width == width && r.value.height == height
  {
    match StageMetrics(width, height, st.margin, st.cols, st.rows)
    case None => None
    case Some(mt) =>
      if st.metrics.cellSize == 0 then None
      else
        var ratio := mt.cellSize as real / st.metrics.cellSize as real;
        var prev := st.metrics;
        Some(st.(width := width, height := height, metrics := mt,
          characters := seq(|st.characters|, i requires 0 <= i < |st.characters| =>
            var b := st.characters[i];
            Box((b.x - prev.left as real) * ratio + mt.left as real,
                (b.y - prev.top as real) * ratio + mt.top as real,
                Numeric.Trunc(b.w as real * ratio), Numeric.Trunc(b.h as real * ratio)))))
  }

  /** Scaling a whole number of old cells by the ratio gives the same number of new cells. */
  lemma CellsScale(k: real, oldCs: int, cs: int)
    requires oldCs != 0
    ensures oldCs as real * k * (cs as real / oldCs as real) == cs as real * k
  {
    var q := cs as real / oldCs as real;
    Numeric.DivMul(cs as real, oldCs as real);
    assert q * oldCs as real == cs as real;
    assert oldCs as real * k * q == (q * oldCs as real) * k;
  }

  /**
   * A character standing exactly on a grid point — `i` cells right of and
   * `j` cells below the grid corner — stands on the same grid point after a
   * resize, measured in the new cells.
   */
  lemma ResizeKeepsGridPoint(st: Stage, width: int, height: int, idx: int, i: int, j: int)
    requires st.cols > 0 && st.rows > 0 && st.metrics.cellSize != 0
    requires 0 <= idx < |st.characters|
    requires st.characters[idx].x == st.metrics.left as real + st.metrics.cellSize as real * i as real
    requires st.characters[idx].y == st.metrics.top as real + st.metrics.cellSize as real * j as real
    ensures var r := OnResize(st, width, height).value;
            r.characters[idx].x == r.metrics.left as real + r.metrics.cellSize as real * i as real &&
            r.characters[idx].y == r.metrics.top as real + r.metrics.cellSize as real * j as real
  {
    var prev := st.metrics;
    var b := st.characters[idx];
    var r := OnResize(st, width, height).value;
    ResizedAt(st, width, height, idx);
    ScaleCoord(b.x, prev.left, prev.cellSize, i as real, r.metrics.left, r.metrics.cellSize);
    ScaleCoord(b.y, prev.top, prev.cellSize, j as real, r.metrics.top, r.metrics.cellSize);
  }

  /** A resize moves a character's corner by its offset from the old grid corner, scaled by the ratio. */
  lemma ResizedAt(st: Stage, width: int, height: int, idx: int)
    requires st.cols > 0 && st.rows > 0 && st.metrics.cellSize != 0
    requires 0 <= idx < |st.characters|
    ensures var r := OnResize(st, width, height).value;
            var ratio := r.metrics.cellSize as real / st.metrics.cellSize as real;
            r.characters[idx].x == (st.characters[idx].x - st.metrics.left as real) * ratio + r.metrics.left as real &&
            r.characters[idx].y == (st.characters[idx].y - st.metrics.top as real) * ratio + r.metrics.top as real
  {
  }

  /** A coordinate `k` old cells past the old corner lands `k` new cells past the new corner. */
  lemma ScaleCoord(v: real, oldOrigin: int, oldCs: int, k: real, origin: int, cs: int)
    requires oldCs != 0 && v == oldOrigin as real + oldCs as real * k
    ensures (v - oldOrigin as real) * (cs as real / oldCs as real) + origin as real == origin as real + cs as real * k
  {
    CellsScale(k, oldCs, cs);
    assert v - oldOrigin as real == oldCs as real * k;
  }

  /**
   * After a resize that keeps a positive cell size, a player standing on a
   * grid point — its corner one cell above cell `(i, j)` — is still
   * reported on cell `(i, j)`.
   */
  lemma ResizeKeepsPlayerCell(st: Stage, width: int, height: int, idx: int, i: nat, j: nat)
    requires st.cols > 0 && st.rows > 0 && st.metrics.cellSize != 0
    requires StageMetrics(width, height, st.margin, st.cols, st.rows).value.cellSize > 0
    requires 0 <= idx < |st.characters|
    requires st.characters[idx].x == st.metrics.left as real + st.metrics.cellSize as real * i as real
    requires st.characters[idx].y == st.metrics.top as real + st.metrics.cellSize as real * (j as real - 1.0)
    ensures var r := OnResize(st, width, height).value;
            var mt := r.metrics;
            PlayerCell(r.characters[idx].x, r.characters[idx].y, mt.cellSize, CellPos(mt, 0, 0)) == Some((i, j))
  {
    var mt := StageMetrics(width, height, st.margin, st.cols, st.rows).value;
    ResizeKeepsGridPoint(st, width, height, idx, i, j - 1);
    var r := OnResize(st, width, height).value;
    var c := mt.cellSize;
    var o := CellPos(mt, 0, 0);
    assert o == (mt.left, mt.top);
    assert (j - 1) as real == j as real - 1.0;
    assert r.characters[idx].x == o.0 as real + c as real * i as real + 0.0;
    assert r.characters[idx].y == o.1 as real + c as real * (j as real - 1.0) + 0.0;
    StandingOnCell(i, j, 0.0, 0.0, c, o, r.characters[idx].x, r.characters[idx].y);
  }

  /**
   * `Stage.on_resize` of bomberman/main.py: after the metrics are
   * recomputed, cell `(x, y)` is placed at `CellPos` and resized to one
   * cell size square. `None` when a cell count is zero.
   */
  function MainCellBox(width: int, height: int, m: Margin, cols: nat, rows: nat, x: int, y: int): (r: Option<(int, int, int, int)>)
    ensures r.None? <==> cols == 0 || rows == 0
  {
    match StageMetrics(width, height, m, cols, rows)
    case None => None
    case Some(mt) =>
      var p := CellPos(mt, x, y);
      Some((p.0, p.1, mt.cellSize, mt.cellSize))
  }

  /**
   * The cells placed by a resize of bomberman/main.py tile the grid: each
   * is square, the next column starts where a cell ends, and all lie
   * inside the stage when the margins leave room.
   */
  lemma MainResizeTiles(width: int, height: int, m: Margin, cols: nat, rows: nat, x: int, y: int)
    requires cols > 0 && rows > 0
    requires m.top >= 0 && m.right >= 0 && m.bottom >= 0 && m.left >= 0
    requires Across(width, m) >= 0 && Down(height, m) >= 0
    requires 0 <= x < cols && 0 <= y < rows
    ensures var b := MainCellBox(width, height, m, cols, rows, x, y).value;
            var b1 := MainCellBox(width, height, m, cols, rows, x + 1, y).value;
            b.2 == b.3 && b1.0 == b.0 + b.2 && b1.1 == b.1 &&
            0 <= b.0 && b.0 + b.2 <= width && 0 <= b.1 && b.1 + b.3 <= height
  {
    var mt := StageMetrics(width, height, m, cols, rows).value;
    CellsAbut(mt, x, y);
    CellsInsideStage(width, height, m, cols, rows, x, y);
  }
}
