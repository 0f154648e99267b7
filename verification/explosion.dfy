/**
 * `explode` of stagescene.py with the `die` and `go_die` of
 * stagecontroller.py it calls: four arms scanned from the bomb's cell
 * outward (left, right, up, down), every cell's live node list examined
 * by `_search_and_break`, a fire marker put on every cell visited, and
 * bombs met on the way exploding in turn before the scan goes on.
 *
 * The cell lists are read live, as CPython's list iterator reads them: the
 * scan holds a position into the list, re-reads the list after every
 * node, and moves on by one, so a node that dies shifts its successor into
 * the slot just handled and that successor is not examined.
 *
 * A chain reaction ends because `die` takes a bomb off the map before its
 * `on_die` explodes it: the set of armed bombs on the map (`Armed`) shrinks
 * at every nested explosion, and with the item-dropping blocks (`Drops`)
 * it is the termination measure.
 */
module Explosion {
  import opened Nodes
  import opened StageFlags
  import opened Grid
  import opened StageWorld
  import Numeric
  import Seqs

  /** The four arms. */
  datatype Dir = West | East | North | South

  /** What one node does to the arm: it goes on, or it stops with an adjustment of the arm's length. */
  datatype Outcome = Go | Halt(adjust: int)

  /** The `i`-th cell of an arm, the bomb's cell being the 0th. */
  function Along(x: int, y: int, d: Dir, i: nat): Cell {
    match d
    case West => (x - i, y)
    case East => (x + i, y)
    case North => (x, y - i)
    case South => (x, y + i)
  }

  /** The number of cells between (x, y) and the map's edge in direction `d`. */
  function Room(b: Board, x: int, y: int, d: Dir): int {
    match d
    case West => x
    case East => b.cols - 1 - x
    case North => y
    case South => b.rows - 1 - y
  }

  /** The number of cells an arm's `xrange` covers. */
  function Span(power: int, room: int): (n: nat)
    ensures power < 0 || room < 0 ==> n == 0
    ensures power >= 0 && room >= 0 ==> n == Numeric.MinI(power, room) + 1
  {
    if power < 0 || room < 0 then 0 else Numeric.MinI(power, room) + 1
  }

  /**
   * `Span` is the length of the source's ranges: `xrange(x, max(x - power
   * - 1, -1), -1)` to the left and `xrange(x, min(x + power + 1, cols))` to
   * the right (likewise up and down).
   */
  lemma SpanIsRange(b: Board, x: int, y: int, power: int)
    ensures Span(power, Room(b, x, y, West)) == Numeric.MaxI(0, x - Numeric.MaxI(x - power - 1, -1))
    ensures Span(power, Room(b, x, y, East)) == Numeric.MaxI(0, Numeric.MinI(x + power + 1, b.cols) - x)
    ensures Span(power, Room(b, x, y, North)) == Numeric.MaxI(0, y - Numeric.MaxI(y - power - 1, -1))
    ensures Span(power, Room(b, x, y, South)) == Numeric.MaxI(0, Numeric.MinI(y + power + 1, b.rows) - y)
  {
  }

  /** Every cell an arm visits is on the map, at most `power` cells from the bomb. */
  lemma ArmInMap(b: Board, x: int, y: int, d: Dir, power: int, i: nat)
    requires InMap(b, (x, y))
    ensures i < Span(power, Room(b, x, y, d)) <==> InMap(b, Along(x, y, d, i)) && i <= power
  {
  }

  /** `cur_bomb_count -= 1` on the bomber that put the bomb. */
  function CountDown(w: World, bomber: NodeId): (r: World)
    ensures bomber in w.bombers ==> bomber in r.bombers && r.bombers[bomber].current == w.bombers[bomber].current - 1
    ensures r == w.(bombers := r.bombers)
  {
    if bomber in w.bombers then
      w.(bombers := w.bombers[bomber := w.bombers[bomber].(current := w.bombers[bomber].current - 1)])
    else w
  }

  /** No cell list grew. */
  ghost predicate NoLonger(w: World, r: World) {
    forall d :: |Occupants(r.board, d)| <= |Occupants(w.board, d)|
  }

  /**
   * The termination measure of a chain reaction did not grow: no armed
   * bomb or item-dropping block appeared, and while neither set shrank no
   * cell list grew.
   */
  ghost predicate Shrinks(w: World, r: World) {
    Armed(r) <= Armed(w) && Drops(r) <= Drops(w)
    && (Armed(r) == Armed(w) && Drops(r) == Drops(w) ==> NoLonger(w, r))
  }

  lemma ShrinksTrans(a: World, b: World, c: World)
    requires Shrinks(a, b) && Shrinks(b, c)
    ensures Shrinks(a, c)
  {
  }

  /** Taking a node off the map takes it out of both sets and makes no list longer. */
  lemma RemoveShrinks(w: World, n: NodeId)
    ensures var v := w.(board := Remove(w.board, n));
            Armed(v) == Armed(w) - {n} && Drops(v) == Drops(w) - {n} && NoLonger(w, v)
  {
    var b := Remove(w.board, n);
    Untrack(w.board, b, w.hooks, n);
    RemoveNoLonger(w.board, n);
  }

  /** Tracking one node fewer takes it out of both sets. */
  lemma Untrack(b: Board, b': Board, h: map<NodeId, Hook>, n: NodeId)
    requires b'.at == b.at - {n}
    ensures ArmedIn(b', h) == ArmedIn(b, h) - {n} && DropsIn(b', h) == DropsIn(b, h) - {n}
  {
  }

  /**
   * `die()` of `make_breakable`: the node leaves the map, then its
   * `on_die` runs: a bomb counts its bomber down and explodes at its cell,
   * a soft block puts a random item at its cell, the player loses.
   */
  function Die(w: World, n: NodeId): (r: World)
    ensures Shrinks(w, r)
    decreases Armed(w), Drops(w), 1, 0
  {
    if n !in w.board.at then w
    else if n in w.hooks && w.hooks[n].Detonate? then Blow(w, n)
    else
      var v := w.(board := Remove(w.board, n));
      RemoveShrinks(w, n);
      if n in w.hooks then
        match w.hooks[n]
        case DropItem(x, y) =>
          assert n in Drops(w) && n !in Drops(v);
          var r := PutItemRandom(v, (x, y));
          assert n !in Drops(r);
          r
        case LoseGame =>
          GameLose(v)
      else v
  }

  /** `die()` of a bomb: off the map, its bomber counted down, and the explosion at its cell. */
  function Blow(w: World, n: NodeId): (r: World)
    requires n in w.board.at && n in w.hooks && w.hooks[n].Detonate?
    ensures Shrinks(w, r)
    decreases Armed(w), Drops(w), 0, 0
  {
    var v := w.(board := Remove(w.board, n));
    RemoveShrinks(w, n);
    var h := w.hooks[n];
    assert n in Armed(w) && n !in Armed(v);
    var r := Explode(CountDown(v, h.bomber), h.x, h.y, h.power);
    assert n !in Armed(r);
    r
  }

  /**
   * `go_die()` of `make_character`: the node is marked dead, then its
   * `on_go_die` starts the dying animation, or, without one, it dies at once.
   */
  function GoDie(w: World, n: NodeId): (r: World)
    ensures Shrinks(w, r)
    decreases Armed(w), Drops(w), 2, 0
  {
    var v := w.(flags := StageObj(w.flags, n, Dead));
    if n in w.dying then v.(log := v.log + [GoingDown(n)])
    else
      var r := Die(v, n);
      r
  }

  /**
   * One node of `_search_and_break`: it is shaken, then the first rule that
   * applies decides — the player loses and the arm goes on; a fire-blocking
   * node stops the arm short of its cell; a bomb dies (and explodes) and the
   * arm goes on; a live character goes to die, leaves the enemy list if it
   * is an enemy, and the arm goes on; a breakable node dies and stops the
   * arm at its cell; anything else is passed through.
   */
  function Hit(w: World, n: NodeId): (r: (World, Outcome))
    ensures Shrinks(w, r.0)
    decreases Armed(w), Drops(w), 3, 0
  {
    var v := Shake(w, n);
    if Has(w, n, Player) then (GameLose(v), Go)
    else if Has(w, n, FireBlocking) then (v, Halt(-1))
    else if Has(w, n, Bomb) then
      var r := Die(v, n);
      (r, Go)
    else if Has(w, n, Character) && !Has(w, n, Dead) then
      var u := GoDie(v, n);
      if Has(w, n, Enemy) then
        Seqs.RemoveFirstNoLonger(u.enemies, n);
        (u.(enemies := Seqs.RemoveFirst(u.enemies, n)), Go)
      else (u, Go)
    else if Has(w, n, Breakable) then
      var r := Die(v, n);
      (r, Halt(0))
    else (v, Go)
  }

  /**
   * `_search_and_break` over the live list of cell `c` from position `i`:
   * `(stopped, adjust)` — `(True, -1)` at a fire-blocking node, `(True, 0)`
   * after breaking a breakable one, `(False, 0)` at the end of the list.
   */
  function Scan(w: World, c: Cell, i: nat): (r: (World, bool, int))
    ensures Armed(r.0) <= Armed(w) && Drops(r.0) <= Drops(w)
    ensures !r.1 ==> r.2 == 0
    ensures r.1 ==> r.2 == -1 || r.2 == 0
    decreases Armed(w), Drops(w), 4, |Occupants(w.board, c)| - i
  {
    var s := Occupants(w.board, c);
    if i >= |s| then (w, false, 0)
    else
      var h := Hit(w, s[i]);
      match h.1
      case Halt(a) => (h.0, true, a)
      case Go => Scan(h.0, c, i + 1)
  }

  /** A node flagged `FIRE` and nothing else: a fire marker. */
  ghost predicate FireOnly(w: World, m: NodeId) {
    forall f :: Has(w, m, f) <==> f == Fire
  }

  /**
   * One cell of an arm: its live list is scanned, then a fire marker joins
   * it, whether or not the scan stopped the arm there.
   */
  function Visit(w: World, c: Cell): (r: (World, bool, int))
    ensures Armed(r.0) <= Armed(w) && Drops(r.0) <= Drops(w)
    ensures !r.1 ==> r.2 == 0
    ensures r.1 ==> r.2 == -1 || r.2 == 0
    ensures var o := Occupants(r.0.board, c);
            |o| > 0 && FireOnly(r.0, o[|o| - 1])
    decreases Armed(w), Drops(w), 5, 0
  {
    var s := Scan(w, c, 0);
    (PutFire(s.0, c), s.1, s.2)
  }

  /**
   * One arm from its `i`-th cell on, of `n` cells in all, every cell
   * visited until one stops the arm. The result is the arm's fire length:
   * the index of the last cell plus the adjustment, or 0 when the arm has
   * no cell.
   */
  function Arm(w: World, x: int, y: int, d: Dir, i: nat, n: nat): (r: (World, int))
    requires i <= n
    ensures Armed(r.0) <= Armed(w) && Drops(r.0) <= Drops(w)
    ensures n == 0 ==> r.1 == 0
    ensures n > 0 ==> i - 1 <= r.1 <= n - 1
    decreases Armed(w), Drops(w), 6, n - i
  {
    if i == n then (w, if n == 0 then 0 else n - 1)
    else
      var v := Visit(w, Along(x, y, d, i));
      if v.1 then (v.0, i + v.2) else Arm(v.0, x, y, d, i + 1, n)
  }

  /** A length an arm of `Span(power, room)` cells can come back with. */
  predicate Within(k: int, power: int, room: int) {
    if Span(power, room) == 0 then k == 0 else -1 <= k <= Numeric.MinI(power, room)
  }

  /** The explosion effect: a node without flags at the bomb's cell, logged with the four fire lengths. */
  function Effect(w: World, x: int, y: int, up: int, right: int, down: int, left: int): (r: World)
    ensures Armed(r) == Armed(w) - {w.next} && Drops(r) == Drops(w) - {w.next}
    ensures Occupants(r.board, (x, y)) == Occupants(w.board, (x, y)) + [w.next]
    ensures forall f :: !Has(r, w.next, f)
    ensures r.log == w.log + [Exploded(x, y, up, right, down, left)]
    ensures Follows(w, r)
  {
    var e := NewNode(w, (x, y), []);
    NewNodeSound(w, (x, y), []);
    e.(log := e.log + [Exploded(x, y, up, right, down, left)])
  }

  /**
   * The arms of `explode` in turn, each given with its number of cells;
   * the fire lengths come back in the same order.
   */
  function Burn(w: World, x: int, y: int, arms: seq<(Dir, nat)>): (r: (World, seq<int>))
    ensures Armed(r.0) <= Armed(w) && Drops(r.0) <= Drops(w)
    ensures |r.1| == |arms|
    decreases Armed(w), Drops(w), 7, |arms|
  {
    if |arms| == 0 then (w, [])
    else
      var a := Arm(w, x, y, arms[0].0, 0, arms[0].1);
      var rest := Burn(a.0, x, y, arms[1..]);
      (rest.0, [a.1] + rest.1)
  }

  /**
   * `explode(bomb, x, y, power)`: the four arms in the order left, right,
   * up, down, then the explosion effect — a node without flags at the
   * bomb's cell — carrying the four fire lengths.
   */
  function Explode(w: World, x: int, y: int, power: int): (r: World)
    ensures Armed(r) <= Armed(w) && Drops(r) <= Drops(w)
    decreases Armed(w), Drops(w), 8, 0
  {
    var b := Burn(w, x, y, Arms(w.board, x, y, power));
    Effect(b.0, x, y, b.1[2], b.1[1], b.1[3], b.1[0])
  }

  /** The four arms of an explosion with their numbers of cells, in the order they burn. */
  function Arms(b: Board, x: int, y: int, power: int): (r: seq<(Dir, nat)>)
    ensures |r| == 4
    ensures forall k :: 0 <= k < 4 ==> r[k].1 == Span(power, Room(b, x, y, r[k].0))
    ensures r[0].0 == West && r[1].0 == East && r[2].0 == North && r[3].0 == South
  {
    [(West, Span(power, Room(b, x, y, West))), (East, Span(power, Room(b, x, y, East))),
     (North, Span(power, Room(b, x, y, North))), (South, Span(power, Room(b, x, y, South)))]
  }

  /** Counting a bomber down is a step every rule may take. */
  lemma CountDownFollows(w: World, bomber: NodeId)
    ensures Follows(w, CountDown(w, bomber))
    ensures Armed(CountDown(w, bomber)) == Armed(w) && Drops(CountDown(w, bomber)) == Drops(w)
  {
  }

  /** A node's death, and the chain reaction it sets off, keeps what every rule keeps. */
  lemma {:induction false} DieFollows(w: World, n: NodeId)
    ensures Follows(w, Die(w, n))
    decreases Armed(w), Drops(w), 1, 0
  {
    if n in w.board.at && n in w.hooks && w.hooks[n].Detonate? {
      BlowFollows(w, n);
    } else if n in w.board.at {
      var v := w.(board := Remove(w.board, n));
      RemoveFollows(w, n);
      if n in w.hooks && w.hooks[n].DropItem? {
        FollowsTrans(w, v, PutItemRandom(v, (w.hooks[n].x, w.hooks[n].y)));
      }
    }
  }

  lemma {:induction false} BlowFollows(w: World, n: NodeId)
    requires n in w.board.at && n in w.hooks && w.hooks[n].Detonate?
    ensures Follows(w, Blow(w, n))
    decreases Armed(w), Drops(w), 0, 0
  {
    var v := w.(board := Remove(w.board, n));
    RemoveFollows(w, n);
    RemoveShrinks(w, n);
    var h := w.hooks[n];
    var u := CountDown(v, h.bomber);
    CountDownFollows(v, h.bomber);
    FollowsTrans(w, v, u);
    ExplodeFollows(u, h.x, h.y, h.power);
    FollowsTrans(w, u, Explode(u, h.x, h.y, h.power));
  }

  lemma {:induction false} GoDieFollows(w: World, n: NodeId)
    ensures Follows(w, GoDie(w, n))
    decreases Armed(w), Drops(w), 2, 0
  {
    var v := w.(flags := StageObj(w.flags, n, Dead));
    assert Follows(w, v);
    if n !in w.dying {
      DieFollows(v, n);
      FollowsTrans(w, v, Die(v, n));
    }
  }

  lemma {:induction false} HitFollows(w: World, n: NodeId)
    ensures Follows(w, Hit(w, n).0)
    decreases Armed(w), Drops(w), 3, 0
  {
    var v := Shake(w, n);
    ShakeFollows(w, n);
    if Has(w, n, Player) {
      LoseFollows(v);
      FollowsTrans(w, v, GameLose(v));
    } else if Has(w, n, FireBlocking) {
    } else if Has(w, n, Bomb) || !(Has(w, n, Character) && !Has(w, n, Dead)) {
      if Has(w, n, Bomb) || Has(w, n, Breakable) {
        DieFollows(v, n);
        FollowsTrans(w, v, Die(v, n));
      }
    } else {
      var u := GoDie(v, n);
      GoDieFollows(v, n);
      FollowsTrans(w, v, u);
      if Has(w, n, Enemy) {
        UnlistFollows(u, n);
        FollowsTrans(w, u, u.(enemies := Seqs.RemoveFirst(u.enemies, n)));
      }
    }
  }

  lemma ShakeFollows(w: World, n: NodeId)
    ensures Follows(w, Shake(w, n))
  {
    SameBoardSound(w, Shake(w, n));
  }

  lemma LoseFollows(w: World)
    ensures Follows(w, GameLose(w))
  {
    SameBoardSound(w, GameLose(w));
  }

  /** Taking an enemy off the enemy list. */
  lemma UnlistFollows(w: World, n: NodeId)
    ensures Follows(w, w.(enemies := Seqs.RemoveFirst(w.enemies, n)))
  {
    Seqs.RemoveFirstNoLonger(w.enemies, n);
    SameBoardSound(w, w.(enemies := Seqs.RemoveFirst(w.enemies, n)));
  }

  lemma {:induction false} ScanFollows(w: World, c: Cell, i: nat)
    ensures Follows(w, Scan(w, c, i).0)
    decreases Armed(w), Drops(w), 4, |Occupants(w.board, c)| - i
  {
    var s := Occupants(w.board, c);
    if i < |s| {
      var h := Hit(w, s[i]);
      HitFollows(w, s[i]);
      if h.1.Go? {
        ScanFollows(h.0, c, i + 1);
        FollowsTrans(w, h.0, Scan(h.0, c, i + 1).0);
      }
    }
  }

  lemma {:induction false} VisitFollows(w: World, c: Cell)
    ensures Follows(w, Visit(w, c).0)
    decreases Armed(w), Drops(w), 5, 0
  {
    var s := Scan(w, c, 0);
    ScanFollows(w, c, 0);
    FollowsTrans(w, s.0, PutFire(s.0, c));
  }

  lemma {:induction false} ArmFollows(w: World, x: int, y: int, d: Dir, i: nat, n: nat)
    requires i <= n
    ensures Follows(w, Arm(w, x, y, d, i, n).0)
    decreases Armed(w), Drops(w), 6, n - i
  {
    if i < n {
      var v := Visit(w, Along(x, y, d, i));
      VisitFollows(w, Along(x, y, d, i));
      if !v.1 {
        ArmFollows(v.0, x, y, d, i + 1, n);
        FollowsTrans(w, v.0, Arm(v.0, x, y, d, i + 1, n).0);
      }
    }
  }

  lemma {:induction false} BurnFollows(w: World, x: int, y: int, arms: seq<(Dir, nat)>)
    ensures Follows(w, Burn(w, x, y, arms).0)
    decreases Armed(w), Drops(w), 7, |arms|
  {
    if |arms| > 0 {
      var a := Arm(w, x, y, arms[0].0, 0, arms[0].1);
      ArmFollows(w, x, y, arms[0].0, 0, arms[0].1);
      BurnFollows(a.0, x, y, arms[1..]);
      FollowsTrans(w, a.0, Burn(a.0, x, y, arms[1..]).0);
    }
  }

  lemma {:induction false} ExplodeFollows(w: World, x: int, y: int, power: int)
    ensures Follows(w, Explode(w, x, y, power))
    decreases Armed(w), Drops(w), 8, 0
  {
    var b := Burn(w, x, y, Arms(w.board, x, y, power));
    BurnFollows(w, x, y, Arms(w.board, x, y, power));
    FollowsTrans(w, b.0, Explode(w, x, y, power));
  }

  /** A node that dies is off the map afterwards, whatever its death set off. */
  lemma DieTakesOff(w: World, n: NodeId)
    requires n < w.next
    ensures n !in Die(w, n).board.at
  {
    if n in w.board.at && n in w.hooks && w.hooks[n].Detonate? {
      BlowTakesOff(w, n);
    } else if n in w.board.at {
      var v := w.(board := Remove(w.board, n));
      assert n !in v.board.at;
      if n in w.hooks && w.hooks[n].DropItem? {
        assert Die(w, n) == PutItemRandom(v, (w.hooks[n].x, w.hooks[n].y));
      }
    }
  }

  lemma BlowTakesOff(w: World, n: NodeId)
    requires n < w.next && n in w.board.at && n in w.hooks && w.hooks[n].Detonate?
    ensures n !in Blow(w, n).board.at
  {
    var v := w.(board := Remove(w.board, n));
    var h := w.hooks[n];
    ExplodeFollows(CountDown(v, h.bomber), h.x, h.y, h.power);
  }

  /**
   * A node that goes to die is flagged dead afterwards; one with a dying
   * animation stays on the map, which is left as it was, and its animation
   * is started.
   */
  lemma GoDieMarks(w: World, n: NodeId)
    requires n < w.next
    ensures Has(GoDie(w, n), n, Dead)
    ensures n in w.dying ==> GoDie(w, n).board == w.board && GoDie(w, n).log == w.log + [GoingDown(n)]
  {
    var v := w.(flags := StageObj(w.flags, n, Dead));
    if n !in w.dying {
      DieFollows(v, n);
    }
  }

  /**
   * The rules of `_search_and_break` that spare the node, the first that
   * applies deciding: the player loses and the arm goes on; a fire-blocking
   * node stops the arm short of its cell and stays; a node no rule applies
   * to stays and lets the arm through, only shaken.
   */
  lemma HitSpares(w: World, n: NodeId)
    ensures var r := Hit(w, n);
            Has(w, n, Player) ==> r.1 == Go && r.0.lose && r.0.board == w.board
    ensures var r := Hit(w, n);
            !Has(w, n, Player) && Has(w, n, FireBlocking) ==> r.1 == Halt(-1) && r.0.board == w.board
    ensures var r := Hit(w, n);
            !Has(w, n, Player) && !Has(w, n, FireBlocking) && !Has(w, n, Bomb)
            && !(Has(w, n, Character) && !Has(w, n, Dead)) && !Has(w, n, Breakable) ==>
              r.1 == Go && r.0 == w.(timing := r.0.timing)
  {
  }

  /**
   * The rules that kill: a bomb leaves the map and the arm goes on; a
   * breakable node that is no live character leaves the map and stops the
   * arm at its cell.
   */
  lemma HitBreaks(w: World, n: NodeId)
    requires n < w.next && !Has(w, n, Player) && !Has(w, n, FireBlocking)
    ensures Has(w, n, Bomb) ==> Hit(w, n).1 == Go && n !in Hit(w, n).0.board.at
    ensures !Has(w, n, Bomb) && !(Has(w, n, Character) && !Has(w, n, Dead)) && Has(w, n, Breakable) ==>
              Hit(w, n).1 == Halt(0) && n !in Hit(w, n).0.board.at
  {
    if Has(w, n, Bomb) || (!(Has(w, n, Character) && !Has(w, n, Dead)) && Has(w, n, Breakable)) {
      DieTakesOff(Shake(w, n), n);
    }
  }

  /** A live character that is no bomb goes to die: it is flagged dead and the arm goes on. */
  lemma HitStrikes(w: World, n: NodeId)
    requires n < w.next && !Has(w, n, Player) && !Has(w, n, FireBlocking) && !Has(w, n, Bomb)
    requires Has(w, n, Character) && !Has(w, n, Dead)
    ensures Hit(w, n).1 == Go && Has(Hit(w, n).0, n, Dead)
  {
    GoDieMarks(Shake(w, n), n);
  }

  /** A live enemy the fire reaches leaves the enemy list once. */
  lemma HitStrikesEnemy(w: World, n: NodeId)
    requires !Has(w, n, Player) && !Has(w, n, FireBlocking) && !Has(w, n, Bomb)
    requires Has(w, n, Character) && !Has(w, n, Dead) && Has(w, n, Enemy) && n in w.enemies
    ensures multiset(Hit(w, n).0.enemies)[n] < multiset(w.enemies)[n]
  {
    var v := Shake(w, n);
    GoDieFollows(v, n);
    assert multiset(GoDie(v, n).enemies)[n] <= multiset(w.enemies)[n];
  }

  /** The fire lengths of the arms, in burning order, are within what their numbers of cells allow. */
  lemma {:induction false} BurnLengths(w: World, x: int, y: int, arms: seq<(Dir, nat)>)
    ensures var r := Burn(w, x, y, arms);
            forall k :: 0 <= k < |arms| ==>
              (arms[k].1 == 0 ==> r.1[k] == 0) && (arms[k].1 > 0 ==> -1 <= r.1[k] <= arms[k].1 - 1)
    decreases |arms|
  {
    if |arms| > 0 {
      var a := Arm(w, x, y, arms[0].0, 0, arms[0].1);
      BurnLengths(a.0, x, y, arms[1..]);
      var r := Burn(w, x, y, arms);
      forall k | 0 <= k < |arms|
        ensures (arms[k].1 == 0 ==> r.1[k] == 0) && (arms[k].1 > 0 ==> -1 <= r.1[k] <= arms[k].1 - 1)
      {
        if k > 0 {
          assert r.1[k] == Burn(a.0, x, y, arms[1..]).1[k - 1];
          assert arms[k] == arms[1..][k - 1];
        }
      }
    }
  }

  /**
   * The explosion effect comes last and carries, for each arm, a length
   * between -1 and the smaller of the power and the room to the map's
   * edge (0 for an arm with no cell), up, right, down and left.
   */
  lemma ExplodeLogs(w: World, x: int, y: int, power: int)
    ensures var r := Explode(w, x, y, power);
            |r.log| > 0 && r.log[|r.log| - 1].Exploded?
            && r.log[|r.log| - 1].x == x && r.log[|r.log| - 1].y == y
            && Within(r.log[|r.log| - 1].up, power, Room(w.board, x, y, North))
            && Within(r.log[|r.log| - 1].right, power, Room(w.board, x, y, East))
            && Within(r.log[|r.log| - 1].down, power, Room(w.board, x, y, South))
            && Within(r.log[|r.log| - 1].left, power, Room(w.board, x, y, West))
  {
    var arms := Arms(w.board, x, y, power);
    BurnLengths(w, x, y, arms);
  }

  /** A node the fire passes without effect: it is not the player, blocks no fire, is no bomb, no live character and not breakable. */
  ghost predicate Inert(w: World, m: NodeId) {
    !Has(w, m, Player) && !Has(w, m, FireBlocking) && !Has(w, m, Bomb)
    && !(Has(w, m, Character) && !Has(w, m, Dead)) && !Has(w, m, Breakable)
  }

  /** Every node of the cell is inert. */
  ghost predicate Calm(w: World, c: Cell) {
    forall m :: m in Occupants(w.board, c) ==> Inert(w, m)
  }

  /** Scanning a calm cell only shakes its nodes and never stops the arm. */
  lemma {:induction false} ScanCalm(w: World, c: Cell, i: nat)
    requires Calm(w, c)
    ensures var r := Scan(w, c, i);
            !r.1 && r.0 == w.(timing := r.0.timing)
    decreases |Occupants(w.board, c)| - i
  {
    var s := Occupants(w.board, c);
    if i < |s| {
      assert Inert(w, s[i]);
      var h := Hit(w, s[i]);
      assert h == (Shake(w, s[i]), Go);
      ScanCalm(h.0, c, i + 1);
    }
  }

  /** Visiting a calm cell does not stop the arm. */
  lemma VisitCalm(w: World, c: Cell)
    requires Calm(w, c)
    ensures !Visit(w, c).1
  {
    ScanCalm(w, c, 0);
  }

  /** Visiting a calm cell leaves every calm cell calm: the new fire marker is inert. */
  lemma VisitKeepsCalm(w: World, c: Cell, e: Cell)
    requires Calm(w, c) && Calm(w, e)
    ensures Calm(Visit(w, c).0, e)
  {
    var s := Scan(w, c, 0);
    ScanCalm(w, c, 0);
    var v := PutFire(s.0, c);
    forall m | m in Occupants(v.board, e) ensures Inert(v, m) {
      if m != w.next {
        assert m in Occupants(w.board, e);
        assert (m in v.flags <==> m in w.flags) && (m in w.flags ==> v.flags[m] == w.flags[m]);
      }
    }
  }

  /** One step of an arm: the cell is visited, and the arm stops there or goes on from the next. */
  lemma ArmStep(w: World, x: int, y: int, d: Dir, i: nat, n: nat)
    requires i < n
    ensures var v := Visit(w, Along(x, y, d, i));
            Arm(w, x, y, d, i, n) == if v.1 then (v.0, i + v.2) else Arm(v.0, x, y, d, i + 1, n)
  {
  }

  /** An arm over calm cells runs to its last cell. */
  lemma {:induction false} ArmCalm(w: World, x: int, y: int, d: Dir, i: nat, n: nat)
    requires i <= n
    requires forall j :: i <= j < n ==> Calm(w, Along(x, y, d, j))
    ensures Arm(w, x, y, d, i, n).1 == if n == 0 then 0 else n - 1
    decreases n - i
  {
    if i < n {
      var v := Visit(w, Along(x, y, d, i));
      VisitCalm(w, Along(x, y, d, i));
      forall j | i + 1 <= j < n ensures Calm(v.0, Along(x, y, d, j)) {
        VisitKeepsCalm(w, Along(x, y, d, i), Along(x, y, d, j));
      }
      ArmStep(w, x, y, d, i, n);
      ArmCalm(v.0, x, y, d, i + 1, n);
    }
  }

  /** An arm over calm cells leaves every calm cell calm. */
  lemma {:induction false} ArmKeepsCalm(w: World, x: int, y: int, d: Dir, i: nat, n: nat, e: Cell)
    requires i <= n
    requires forall j :: i <= j < n ==> Calm(w, Along(x, y, d, j))
    requires Calm(w, e)
    ensures Calm(Arm(w, x, y, d, i, n).0, e)
    decreases n - i
  {
    if i < n {
      var v := Visit(w, Along(x, y, d, i));
      VisitCalm(w, Along(x, y, d, i));
      forall j | i + 1 <= j < n ensures Calm(v.0, Along(x, y, d, j)) {
        VisitKeepsCalm(w, Along(x, y, d, i), Along(x, y, d, j));
      }
      VisitKeepsCalm(w, Along(x, y, d, i), e);
      ArmStep(w, x, y, d, i, n);
      ArmKeepsCalm(v.0, x, y, d, i + 1, n, e);
    }
  }

  lemma CalmArmsTail(w: World, v: World, x: int, y: int, arms: seq<(Dir, nat)>)
    requires |arms| > 0
    requires forall k, j :: 0 <= k < |arms| && 0 <= j < arms[k].1 ==> Calm(w, Along(x, y, arms[k].0, j))
    requires forall e :: Calm(w, e) ==> Calm(v, e)
    ensures forall k, j :: 0 <= k < |arms| - 1 && 0 <= j < arms[1..][k].1 ==> Calm(v, Along(x, y, arms[1..][k].0, j))
  {
    forall k, j | 0 <= k < |arms| - 1 && 0 <= j < arms[1..][k].1 ensures Calm(v, Along(x, y, arms[1..][k].0, j)) {
      assert arms[1..][k] == arms[k + 1];
    }
  }

  /** Arms over calm cells all run to their last cells. */
  lemma {:induction false} BurnCalm(w: World, x: int, y: int, arms: seq<(Dir, nat)>)
    requires forall k, j :: 0 <= k < |arms| && 0 <= j < arms[k].1 ==> Calm(w, Along(x, y, arms[k].0, j))
    ensures var r := Burn(w, x, y, arms);
            forall k :: 0 <= k < |arms| ==> r.1[k] == if arms[k].1 == 0 then 0 else arms[k].1 - 1
    decreases |arms|
  {
    if |arms| > 0 {
      var a := Arm(w, x, y, arms[0].0, 0, arms[0].1);
      ArmCalm(w, x, y, arms[0].0, 0, arms[0].1);
      FirstArmKeepsCalm(w, x, y, arms);
      var t := arms[1..];
      CalmArmsTail(w, a.0, x, y, arms);
      BurnCalm(a.0, x, y, t);
      var r := Burn(w, x, y, arms);
      var rest := Burn(a.0, x, y, t).1;
      assert r.1 == [a.1] + rest;
      forall k | 0 <= k < |arms| ensures r.1[k] == if arms[k].1 == 0 then 0 else arms[k].1 - 1 {
        if k > 0 {
          assert r.1[k] == rest[k - 1] && arms[k] == t[k - 1];
        }
      }
    }
  }

  /** Burning the first arm over calm cells leaves every calm cell calm. */
  lemma FirstArmKeepsCalm(w: World, x: int, y: int, arms: seq<(Dir, nat)>)
    requires |arms| > 0
    requires forall j :: 0 <= j < arms[0].1 ==> Calm(w, Along(x, y, arms[0].0, j))
    ensures forall e :: Calm(w, e) ==> Calm(Arm(w, x, y, arms[0].0, 0, arms[0].1).0, e)
  {
    forall e | Calm(w, e) ensures Calm(Arm(w, x, y, arms[0].0, 0, arms[0].1).0, e) {
      ArmKeepsCalm(w, x, y, arms[0].0, 0, arms[0].1, e);
    }
  }

  /**
   * An explosion on the map whose arms meet only calm cells reaches in
   * every direction the smaller of its power and the room to the map's edge.
   */
  lemma ExplodeCalm(w: World, x: int, y: int, power: int)
    requires InMap(w.board, (x, y)) && power >= 0
    requires forall d, j :: 0 <= j < Span(power, Room(w.board, x, y, d)) ==> Calm(w, Along(x, y, d, j))
    ensures var r := Explode(w, x, y, power);
            |r.log| > 0
            && r.log[|r.log| - 1] == Exploded(x, y, Numeric.MinI(power, Room(w.board, x, y, North)),
                                              Numeric.MinI(power, Room(w.board, x, y, East)),
                                              Numeric.MinI(power, Room(w.board, x, y, South)),
                                              Numeric.MinI(power, Room(w.board, x, y, West)))
  {
    var arms := Arms(w.board, x, y, power);
    BurnCalm(w, x, y, arms);
  }
}
