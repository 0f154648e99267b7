/**
 * `make_character`: the direction queue of a walking node. Pressing a
 * direction puts it at the head of `dir_queue` and starts the looping
 * 'move' action; releasing it drops it, handing the walk back to the
 * direction pressed before; every tick the 'move' action walks the node
 * towards the head direction only. The `on_move` and `on_stop` callbacks
 * are recorded, not run.
 */
module Character {
  import opened Wrappers
  import opened Nodes
  import Seqs
  import Scheduler
  import MapContainer
  import StageWorld
  import Movement
  import Numeric

  /** The four direction strings the stage passes to `move` and `stop`. */
  datatype Dir = Up | Down | Left | Right

  /** A callback of `make_character`, with the direction it was given. */
  datatype Call = OnMove(d: Dir) | OnStop(d: Dir)

  /**
   * What `make_character` adds to a node: its `speed`, its `dir_queue`
   * (most recently pressed first), the node's actions, whether `on_move`
   * and `on_stop` were given, and the callbacks run so far.
   */
  datatype Walker = Walker(speed: real, queue: seq<Dir>, timing: Scheduler.Timing,
                           hasMove: bool, hasStop: bool, calls: seq<Call>)

  /** `add_action('move', move_action, loop=True)` with every other argument left at its default. */
  const Walking: Scheduler.Action := Scheduler.Action(0.0, 0.0, false, true, false, 0.0, false)

  /** `make_character(stage, node, speed, on_move, on_stop)`: an empty queue and nothing called yet. */
  function Make(speed: real, t: Scheduler.Timing, hasMove: bool, hasStop: bool): (r: Walker)
    ensures r.queue == [] && r.calls == [] && r.timing == t && r.speed == speed
  {
    Walker(speed, [], t, hasMove, hasStop, [])
  }

  /** Runs callback `c` when it was given. */
  function Notify(w: Walker, c: Call, given: bool): (r: Walker)
    ensures given ==> r.calls == w.calls + [c]
    ensures !given ==> r.calls == w.calls
    ensures r == w.(calls := r.calls)
  {
    if given then w.(calls := w.calls + [c]) else w
  }

  /**
   * `move(dir)`: an earlier entry for `dir` leaves the queue, `dir` goes
   * to its head, the looping 'move' action is (re)started and `on_move`
   * is told the direction.
   */
  function Move(w: Walker, d: Dir): (r: Walker)
    ensures |r.queue| > 0 && r.queue[0] == d
    ensures multiset(r.queue) == multiset(w.queue) - multiset{d} + multiset{d}
    ensures "move" in r.timing.actions && r.timing.actions["move"] == Walking
    ensures forall a :: a != "move" ==> (a in r.timing.actions <==> a in w.timing.actions)
    ensures r.calls == w.calls + (if w.hasMove then [OnMove(d)] else [])
    ensures r.speed == w.speed && r.hasMove == w.hasMove && r.hasStop == w.hasStop
  {
    var t := Scheduler.AddAction(w.timing, "move", 0.0, 0.0, false, true, false);
    Notify(w.(queue := [d] + Seqs.RemoveFirst(w.queue, d), timing := t), OnMove(d), w.hasMove)
  }

  /**
   * `stop(dir)` (`dir` is `None` for a bare `stop()`):
   *  - releasing the head pops it and tells `on_stop`; the next direction
   *    then resumes through `on_move`, or, with none left, the 'move'
   *    action is removed;
   *  - releasing a direction further back drops it silently;
   *  - anything else resets every action and tells `on_stop` all four
   *    directions, leaving the queue as it was.
   */
  function Stop(w: Walker, d: Option<Dir>): (r: Walker)
    ensures |w.queue| > 0 && d == Some(w.queue[0]) ==>
              r.queue == w.queue[1..] &&
              (|r.queue| > 0 ==>
                 (r.timing == w.timing &&
                  r.calls == w.calls + (if w.hasStop then [OnStop(d.value)] else [])
                                     + (if w.hasMove then [OnMove(r.queue[0])] else []))) &&
              (|r.queue| == 0 ==>
                 ("move" !in r.timing.actions &&
                  r.calls == w.calls + (if w.hasStop then [OnStop(d.value)] else [])))
    ensures (|w.queue| == 0 || d != Some(w.queue[0])) && d.Some? && d.value in w.queue ==>
              multiset(r.queue) == multiset(w.queue) - multiset{d.value} && |r.queue| == |w.queue| - 1 &&
              r.timing == w.timing && r.calls == w.calls
    ensures (d.None? || d.value !in w.queue) ==>
              r.queue == w.queue && r.timing.actions == map[] &&
              r.calls == w.calls + (if w.hasStop then [OnStop(Up), OnStop(Down), OnStop(Right), OnStop(Left)] else [])
    ensures r.speed == w.speed && r.hasMove == w.hasMove && r.hasStop == w.hasStop
  {
    if |w.queue| > 0 && d == Some(w.queue[0]) then
      var v := Notify(w.(queue := w.queue[1..]), OnStop(d.value), w.hasStop);
      if |v.queue| > 0 then Notify(v, OnMove(v.queue[0]), w.hasMove)
      else v.(timing := Scheduler.RemoveAction(v.timing, "move"))
    else if d.Some? && d.value in w.queue then
      Seqs.RemoveFirstShrinks(w.queue, d.value);
      w.(queue := Seqs.RemoveFirst(w.queue, d.value))
    else
      var v := w.(timing := Scheduler.ResetActions(w.timing));
      if w.hasStop then v.(calls := w.calls + [OnStop(Up), OnStop(Down), OnStop(Right), OnStop(Left)])
      else v
  }

  /** The queue never holds a direction twice. */
  predicate Distinct(w: Walker) {
    Seqs.NoDup(w.queue)
  }

  /** After `move(dir)` on a queue without repeats, `dir` heads it and appears exactly once, and nothing repeats. */
  lemma MoveOnce(w: Walker, d: Dir)
    requires Distinct(w)
    ensures var r := Move(w, d);
            Distinct(r) && r.queue[0] == d && multiset(r.queue)[d] == 1
            && forall e :: e != d ==> (e in r.queue <==> e in w.queue)
  {
    var rest := Seqs.RemoveFirst(w.queue, d);
    Seqs.RemoveFirstNoDup(w.queue, d);
    Seqs.NoDupCons(d, rest);
    assert Move(w, d).queue == [d] + rest;
    forall e | e != d
      ensures e in Move(w, d).queue <==> e in w.queue
    {
      assert e in multiset(w.queue) <==> e in multiset(rest);
    }
  }

  /** `stop(dir)` keeps the queue free of repeats. */
  lemma StopDistinct(w: Walker, d: Option<Dir>)
    requires Distinct(w)
    ensures Distinct(Stop(w, d))
  {
    if |w.queue| > 0 && d == Some(w.queue[0]) {
      Seqs.NoDupTail(w.queue);
    } else if d.Some? && d.value in w.queue {
      Seqs.RemoveFirstNoDup(w.queue, d.value);
    }
  }

  /** Releasing a direction after pressing it leaves it out of the queue, which is otherwise as before the press. */
  lemma PressRelease(w: Walker, d: Dir)
    requires Distinct(w)
    ensures var r := Stop(Move(w, d), Some(d));
            d !in r.queue && r.queue == Seqs.RemoveFirst(w.queue, d)
  {
    Seqs.RemoveFirstNoDup(w.queue, d);
  }

  /** Pressing and releasing a direction that was not held leaves the queue as it was, and the last walk stops only if it was alone. */
  lemma PressReleaseRestores(w: Walker, d: Dir)
    requires Distinct(w) && d !in w.queue
    ensures var r := Stop(Move(w, d), Some(d));
            r.queue == w.queue && (w.queue == [] <==> "move" !in r.timing.actions)
  {
  }

  /** The order `on_tick` asks for the arrow keys: left, up, right, down. */
  const KeyOrder: seq<Dir> := [Left, Up, Right, Down]

  /** `move` for every direction of `ds` whose key went down this tick, in the order of `ds`. */
  function PressAll(w: Walker, ds: seq<Dir>, pressed: set<Dir>): (r: Walker)
    ensures r.speed == w.speed && r.hasMove == w.hasMove && r.hasStop == w.hasStop
    decreases |ds|
  {
    if |ds| == 0 then w
    else PressAll(if ds[0] in pressed then Move(w, ds[0]) else w, ds[1..], pressed)
  }

  /** `stop` for every direction of `ds` whose key came up this tick, in the order of `ds`. */
  function ReleaseAll(w: Walker, ds: seq<Dir>, released: set<Dir>): (r: Walker)
    ensures r.speed == w.speed && r.hasMove == w.hasMove && r.hasStop == w.hasStop
    decreases |ds|
  {
    if |ds| == 0 then w
    else ReleaseAll(if ds[0] in released then Stop(w, Some(ds[0])) else w, ds[1..], released)
  }

  /**
   * The arrow keys of `on_tick` while the game is on: first a `move` for
   * each direction pressed, then a `stop` for each released (`key_up` and
   * `key_down` of the Keyboard module report a press and a release).
   */
  function Steer(w: Walker, pressed: set<Dir>, released: set<Dir>): (r: Walker)
    ensures r.speed == w.speed
  {
    ReleaseAll(PressAll(w, KeyOrder, pressed), KeyOrder, released)
  }

  /** Presses keep the queue free of repeats and add exactly the pressed directions of `ds`. */
  lemma {:induction false} PressAllQueue(w: Walker, ds: seq<Dir>, pressed: set<Dir>)
    requires Distinct(w)
    ensures Distinct(PressAll(w, ds, pressed))
    ensures forall e :: e in PressAll(w, ds, pressed).queue <==> e in w.queue || (e in ds && e in pressed)
    decreases |ds|
  {
    if |ds| > 0 {
      var v := if ds[0] in pressed then Move(w, ds[0]) else w;
      if ds[0] in pressed {
        MoveOnce(w, ds[0]);
      }
      PressAllQueue(v, ds[1..], pressed);
      assert forall e :: e in ds <==> e == ds[0] || e in ds[1..];
    }
  }

  /** The last pressed direction of `ds` heads the queue. */
  lemma {:induction false} PressAllHead(w: Walker, ds: seq<Dir>, pressed: set<Dir>, k: nat)
    requires k < |ds| && ds[k] in pressed
    requires forall j :: k < j < |ds| ==> ds[j] !in pressed
    ensures |PressAll(w, ds, pressed).queue| > 0 && PressAll(w, ds, pressed).queue[0] == ds[k]
    decreases |ds|
  {
    var v := if ds[0] in pressed then Move(w, ds[0]) else w;
    if k == 0 {
      PressAllNone(v, ds[1..], pressed);
    } else {
      PressAllHead(v, ds[1..], pressed, k - 1);
    }
  }

  /** Directions that were not pressed change nothing. */
  lemma {:induction false} PressAllNone(w: Walker, ds: seq<Dir>, pressed: set<Dir>)
    requires forall j :: 0 <= j < |ds| ==> ds[j] !in pressed
    ensures PressAll(w, ds, pressed) == w
    decreases |ds|
  {
    if |ds| > 0 {
      PressAllNone(w, ds[1..], pressed);
    }
  }

  /** Releases keep the queue free of repeats and drop exactly the released directions of `ds`. */
  lemma {:induction false} ReleaseAllQueue(w: Walker, ds: seq<Dir>, released: set<Dir>)
    requires Distinct(w)
    ensures Distinct(ReleaseAll(w, ds, released))
    ensures forall e :: e in ReleaseAll(w, ds, released).queue <==> e in w.queue && !(e in ds && e in released)
    decreases |ds|
  {
    if |ds| > 0 {
      var d := ds[0];
      var v := if d in released then Stop(w, Some(d)) else w;
      if d in released {
        StopDistinct(w, Some(d));
        StopQueue(w, d);
      }
      ReleaseAllQueue(v, ds[1..], released);
      assert forall e :: e in ds <==> e == d || e in ds[1..];
    }
  }

  /** `stop(dir)` on a queue without repeats leaves exactly `dir` out of it. */
  lemma StopQueue(w: Walker, d: Dir)
    requires Distinct(w)
    ensures forall e :: e in Stop(w, Some(d)).queue <==> e in w.queue && e != d
  {
    var r := Stop(w, Some(d));
    if |w.queue| > 0 && d == w.queue[0] {
      Seqs.NoDupTail(w.queue);
      assert forall e :: e in w.queue <==> e == w.queue[0] || e in w.queue[1..];
    } else if d in w.queue {
      Seqs.RemoveFirstNoDup(w.queue, d);
      forall e
        ensures e in r.queue <==> e in w.queue && e != d
      {
        assert e in r.queue <==> e in multiset(r.queue);
        assert e in w.queue <==> e in multiset(w.queue);
      }
    }
  }

  /**
   * One tick of arrow keys: the queue holds, once each, the directions
   * held before or pressed now, minus those released now; with no key
   * released, the last pressed one in key order leads.
   */
  lemma SteerQueue(w: Walker, pressed: set<Dir>, released: set<Dir>)
    requires Distinct(w)
    ensures Distinct(Steer(w, pressed, released))
    ensures forall e :: e in Steer(w, pressed, released).queue <==> (e in w.queue || e in pressed) && e !in released
  {
    PressAllQueue(w, KeyOrder, pressed);
    ReleaseAllQueue(PressAll(w, KeyOrder, pressed), KeyOrder, released);
    forall e: Dir
      ensures e in KeyOrder
    {
      match e
      case Left => assert KeyOrder[0] == e;
      case Up => assert KeyOrder[1] == e;
      case Right => assert KeyOrder[2] == e;
      case Down => assert KeyOrder[3] == e;
    }
  }

  /** With no key released, the direction pressed last in key order heads the queue. */
  lemma SteerHead(w: Walker, pressed: set<Dir>, k: nat)
    requires k < |KeyOrder| && KeyOrder[k] in pressed
    requires forall j :: k < j < |KeyOrder| ==> KeyOrder[j] !in pressed
    ensures |Steer(w, pressed, {}).queue| > 0 && Steer(w, pressed, {}).queue[0] == KeyOrder[k]
  {
    PressAllHead(w, KeyOrder, pressed, k);
    ReleaseAllNone(PressAll(w, KeyOrder, pressed), KeyOrder);
  }

  /** Releasing nothing changes nothing. */
  lemma {:induction false} ReleaseAllNone(w: Walker, ds: seq<Dir>)
    ensures ReleaseAll(w, ds, {}) == w
    decreases |ds|
  {
    if |ds| > 0 {
      ReleaseAllNone(w, ds[1..]);
    }
  }

  /** A move of `k` pixels towards `d`; up is towards smaller `y`. */
  function Toward(d: Dir, k: real): (real, real) {
    match d
    case Up => (0.0, -k)
    case Down => (0.0, k)
    case Left => (-k, 0.0)
    case Right => (k, 0.0)
  }

  /**
   * `move_action(interval, phase)`: the request it passes to
   * `move_object`, `interval * speed * cell_size` towards the head
   * direction only; nothing with an empty queue.
   */
  function Step(w: Walker, interval: real, cs: int): (r: Option<(real, real)>)
    ensures r.None? <==> |w.queue| == 0
    ensures r.Some? ==> var k := Stride(w.speed, interval, cs);
                        var d := w.queue[0];
                        (d in {Up, Down} ==> r.value.0 == 0.0) && (d in {Left, Right} ==> r.value.1 == 0.0)
                        && (d in {Up, Left} ==> r.value.0 + r.value.1 == -k)
                        && (d in {Down, Right} ==> r.value.0 + r.value.1 == k)
  {
    if |w.queue| == 0 then None
    else Some(Toward(w.queue[0], Stride(w.speed, interval, cs)))
  }

  /** `interval * self.speed * get_cell_size()`: the pixels walked in one tick. */
  function Stride(speed: real, interval: real, cs: int): real {
    interval * speed * cs as real
  }

  /** Only the head of the queue steers: the directions held behind it do not change the step. */
  lemma StepHeadOnly(w: Walker, interval: real, cs: int)
    requires |w.queue| > 0
    ensures Step(w, interval, cs) == Step(w.(queue := [w.queue[0]]), interval, cs)
  {
  }

  /** Every step moves along exactly one axis, by the same amount either way. */
  lemma StepOneAxis(w: Walker, interval: real, cs: int)
    requires |w.queue| > 0
    ensures var s := Step(w, interval, cs).value;
            var k := Stride(w.speed, interval, cs);
            (s.0 == 0.0 && (s.1 == k || s.1 == -k)) || (s.1 == 0.0 && (s.0 == k || s.0 == -k))
  {
  }

  /** `move_action`: `move_object` with the step, or nothing at all. */
  function Walk(world: StageWorld.World, m: MapContainer.Map, n: NodeId, w: Walker, interval: real): (r: (StageWorld.World, MapContainer.Map))
    requires MapContainer.Valid(m) && n in m.nodes && m.CellSize() > 0
    ensures MapContainer.Valid(r.1) && MapContainer.SameFrame(r.1, m) && r.1.nodes.Keys == m.nodes.Keys
    ensures r.0 == world.(board := r.0.board)
    ensures |w.queue| == 0 ==> r == (world, m)
  {
    match Step(w, interval, m.CellSize())
    case None => (world, m)
    case Some(d) => Movement.MoveObject(world, m, n, d.0, d.1)
  }

  /** A walk keeps the map sound. */
  lemma WalkSound(world: StageWorld.World, m: MapContainer.Map, n: NodeId, w: Walker, interval: real)
    requires MapContainer.Valid(m) && n in m.nodes && m.CellSize() > 0 && n in world.board.at
    ensures StageWorld.Sound(world) ==> StageWorld.Sound(Walk(world, m, n, w, interval).0)
  {
    match Step(w, interval, m.CellSize())
    case None =>
    case Some(d) => Movement.MoveObjectSound(world, m, n, d.0, d.1);
  }

  /** A walk keeps the stage's cell lists and the tile map in step. */
  lemma WalkMirrors(world: StageWorld.World, m: MapContainer.Map, n: NodeId, w: Walker, interval: real)
    requires Movement.Mirrors(world.board, m) && n in m.nodes && m.CellSize() > 0
    ensures Movement.Mirrors(Walk(world, m, n, w, interval).0.board, Walk(world, m, n, w, interval).1)
  {
    match Step(w, interval, m.CellSize())
    case None =>
    case Some(d) => Movement.MoveObjectMirrors(world, m, n, d.0, d.1);
  }

  /** A walk towards a side `is_blocked` reports never takes the node past its cell's origin on that axis. */
  lemma WalkBlocked(world: StageWorld.World, m: MapContainer.Map, n: NodeId, w: Walker, interval: real)
    requires MapContainer.Valid(m) && n in m.nodes && m.CellSize() > 0
    requires |w.queue| > 0 && w.queue[0] == Right && interval * w.speed > 0.0
    requires StageWorld.IsBlocked(world, n, (m.nodes[n].cell.0 + 1, m.nodes[n].cell.1))
    ensures var c := m.nodes[n].cell;
            var r := Walk(world, m, n, w, interval).1;
            n in r.nodes && MapContainer.GetNodePos(r, n).0 <= MapContainer.CellPosR(m, c.0, c.1).0
            && r.nodes[n].cell.0 <= c.0
  {
    var k := Stride(w.speed, interval, m.CellSize());
    assert k > 0.0 by {
      Numeric.MulLt(0.0, interval * w.speed, m.CellSize() as real);
    }
    assert Walk(world, m, n, w, interval) == Movement.MoveObject(world, m, n, k, 0.0) by {
      assert Step(w, interval, m.CellSize()) == Some((k, 0.0));
    }
    Movement.BlockedSideHolds(world, m, n, k, 0.0);
  }
}
