/**
 * The state the stage rules of stagescene.py and stagecontroller.py work
 * on, and the rules that take one step: creating nodes, fire markers,
 * bombs and items, the bomber's `bomb()`, blocking and the fuse of a bomb.
 * Callbacks whose effect lies outside this state (messages, animations of
 * dying enemies, the explosion picture, `on_bomb`) are appended to a log.
 */
module StageWorld {
  import opened Wrappers
  import opened Nodes
  import opened StageFlags
  import opened Grid
  import Seqs
  import Scheduler

  /** `FIRE_LASTING`: the seconds a fire marker stays on the map. */
  const FireLasting: real := 1.5

  /** What `die` runs after it took a breakable node off the map: the node's `on_die`. */
  datatype Hook =
    | Detonate(x: int, y: int, power: int, bomber: NodeId)  // a bomb's `_on_die`
    | DropItem(x: int, y: int)                             // a soft block's `put_item_random(x, y)`
    | LoseGame                                             // the player's `game_lose`

  /** The two items: one raises the eater's bomb power, the other its number of bombs. */
  datatype ItemKind = FireUp | BombUp

  /** `make_bomber`'s attributes: `bomb_delay`, `bomb_power`, `bomb_count` and `cur_bomb_count`. */
  datatype Bomber = Bomber(delay: real, power: int, limit: int, current: int)

  /** Callbacks recorded rather than run. */
  datatype Event =
    | Lost                                                          // game_lose's message
    | Won                                                           // game_win's message
    | GoingDown(n: NodeId)                                          // an enemy's `on_go_die` animation
    | Exploded(x: int, y: int, up: int, right: int, down: int, left: int)  // the explosion effect's fire lengths
    | BombPlaced(bomber: NodeId)                                    // `on_bomb`
    | Eaten(item: NodeId, eater: NodeId)                             // the item's fly-away animation

  /**
   * The stage: the map's cell lists, every node's flags, the `on_die` and
   * `on_go_die` callbacks, bombers, bomb fuses, items, node timings, the
   * player, the enemy list, the win/lose flags, the random draws still to
   * come, the identity the next created node gets, and the event log.
   */
  datatype World = World(
    board: Board,
    flags: FlagTable,
    hooks: map<NodeId, Hook>,
    dying: set<NodeId>,
    bombers: map<NodeId, Bomber>,
    fuses: map<NodeId, real>,
    items: map<NodeId, ItemKind>,
    timing: map<NodeId, Scheduler.Timing>,
    player: NodeId,
    enemies: seq<NodeId>,
    win: bool,
    lose: bool,
    draws: seq<int>,
    next: NodeId,
    log: seq<Event>)

  /** `stageobj_has_flag(f, n)`. */
  predicate Has(w: World, n: NodeId, f: Flag) {
    HasFlag(w.flags, n, f)
  }

  /** The actions and animations of `n`; a node nobody scheduled anything on is idle. */
  function TimingOf(w: World, n: NodeId): Scheduler.Timing {
    if n in w.timing then w.timing[n] else Scheduler.Idle
  }

  /** Bombs on the map that will explode when they die: what bounds a chain reaction. */
  function Armed(w: World): set<NodeId> {
    ArmedIn(w.board, w.hooks)
  }

  function ArmedIn(b: Board, h: map<NodeId, Hook>): set<NodeId> {
    set m | m in b.at && m in h && h[m].Detonate?
  }

  /** Soft blocks on the map that drop an item when they die. */
  function Drops(w: World): set<NodeId> {
    DropsIn(w.board, w.hooks)
  }

  function DropsIn(b: Board, h: map<NodeId, Hook>): set<NodeId> {
    set m | m in b.at && m in h && h[m].DropItem?
  }

  /**
   * What every rule of the stage keeps: no armed bomb or item-dropping
   * block appears, the map keeps its size, created nodes get new
   * identities, nodes that existed before are never put back on the map
   * once gone and never lose a flag, the enemy list only shrinks, a lost
   * game stays lost, and events are only appended.
   */
  ghost predicate Follows(w: World, r: World) {
    Armed(r) <= Armed(w) && Drops(r) <= Drops(w)
    && r.board.cols == w.board.cols && r.board.rows == w.board.rows
    && r.next >= w.next && r.player == w.player && r.win == w.win
    && (forall m :: m in r.board.at && m < w.next ==> m in w.board.at)
    && (forall m: NodeId, f :: m < w.next && HasFlag(w.flags, m, f) ==> HasFlag(r.flags, m, f))
    && multiset(r.enemies) <= multiset(w.enemies) && |r.enemies| <= |w.enemies|
    && (w.lose ==> r.lose)
    && w.log <= r.log
    && (Sound(w) ==> Sound(r))
  }

  /**
   * The map's bookkeeping agrees with itself and every node on it is older
   * than the next identity: `remove_node` then finds every node a rule
   * takes out of a cell list, and `add_node` never meets a new node twice.
   */
  ghost predicate Sound(w: World) {
    Consistent(w.board) && forall m :: m in w.board.at ==> m < w.next
  }

  lemma FollowsTrans(a: World, b: World, c: World)
    requires Follows(a, b) && Follows(b, c)
    ensures Follows(a, c)
  {
  }

  /**
   * A node created at cell `c` with exactly the flags `fs`: it is appended
   * to the cell, gets the next identity, and has no `on_die` callback.
   */
  function NewNode(w: World, c: Cell, fs: seq<Flag>): (r: World)
    ensures Occupants(r.board, c) == Occupants(w.board, c) + [w.next]
    ensures forall d :: d != c ==> Occupants(r.board, d) == Occupants(w.board, d)
    ensures r.board.at == w.board.at[w.next := c]
    ensures forall f :: Has(r, w.next, f) <==> f in fs
    ensures w.next !in r.hooks && forall m :: m != w.next ==> (m in r.hooks <==> m in w.hooks)
    ensures r == w.(board := r.board, flags := r.flags, hooks := r.hooks, next := w.next + 1)
  {
    var n := w.next;
    w.(board := Add(w.board, n, c), flags := Fresh(w.flags, n, fs), hooks := w.hooks - {n}, next := n + 1)
  }

  /** A step that leaves the map alone keeps it sound. */
  lemma SameBoardSound(w: World, r: World)
    requires r.board == w.board && r.next >= w.next
    ensures Sound(w) ==> Sound(r)
  {
  }

  /** Taking a node off keeps the map sound. */
  lemma RemoveSound(w: World, n: NodeId)
    ensures Sound(w) ==> Sound(w.(board := Remove(w.board, n)))
  {
    if Sound(w) && n in w.board.at {
      RemoveKeepsConsistent(w.board, n);
    }
  }

  /** A new node keeps the map sound. */
  lemma NewNodeSound(w: World, c: Cell, fs: seq<Flag>)
    ensures Sound(w) ==> Sound(NewNode(w, c, fs))
  {
    if Sound(w) {
      AddKeepsConsistent(w.board, w.next, c);
    }
  }

  /**
   * `_put_fire(x, y)` of `explode`: a node flagged only `FIRE` joins the
   * cell, carrying a `die` action that starts after `FIRE_LASTING` seconds
   * and whose cleanup takes the marker off the map.
   */
  function PutFire(w: World, c: Cell): (r: World)
    ensures Occupants(r.board, c) == Occupants(w.board, c) + [w.next]
    ensures forall d :: d != c ==> Occupants(r.board, d) == Occupants(w.board, d)
    ensures forall f :: Has(r, w.next, f) <==> f == Fire
    ensures w.next in r.timing && "die" in r.timing[w.next].actions
    ensures var a := r.timing[w.next].actions["die"];
            a.delay == FireLasting && a.cleanup && !a.loop && !a.started
    ensures r.next == w.next + 1 && r.enemies == w.enemies && r.lose == w.lose && r.log == w.log
    ensures Follows(w, r)
  {
    var v := NewNode(w, c, [Fire]);
    NewNodeSound(w, c, [Fire]);
    v.(timing := v.timing[w.next := Scheduler.AddAction(Scheduler.Idle, "die", 0.0, FireLasting, false, false, true)])
  }

  /** The `shake` action `explode` adds to every node it reaches (two seconds, redrawing). */
  function Shake(w: World, n: NodeId): (r: World)
    ensures r.board == w.board && r.flags == w.flags && r.hooks == w.hooks && r.enemies == w.enemies
    ensures "shake" in TimingOf(r, n).actions && TimingOf(r, n).actions["shake"].duration == 2.0
    ensures r == w.(timing := r.timing)
  {
    w.(timing := w.timing[n := Scheduler.AddAction(TimingOf(w, n), "shake", 2.0, 0.0, true, false, false)])
  }

  /** `game_lose`: lost, and the player's animations and actions are reset. */
  function GameLose(w: World): (r: World)
    ensures r.lose && r.log == w.log + [Lost]
    ensures TimingOf(r, w.player).actions == map[] && TimingOf(r, w.player).animations == []
    ensures r == w.(lose := true, timing := r.timing, log := r.log)
  {
    var t := Scheduler.ResetActions(Scheduler.ResetAnimations(TimingOf(w, w.player)));
    w.(lose := true, timing := w.timing[w.player := t], log := w.log + [Lost])
  }

  /** `game_win`. */
  function GameWin(w: World): (r: World)
    ensures r.win && r.log == w.log + [Won]
    ensures r == w.(win := true, log := r.log)
  {
    w.(win := true, log := w.log + [Won])
  }

  /** `put_fireitem` / `put_bombitem`: a breakable item node joins the cell. */
  function PutItem(w: World, c: Cell, k: ItemKind): (r: World)
    ensures Occupants(r.board, c) == Occupants(w.board, c) + [w.next]
    ensures Has(r, w.next, Item) && Has(r, w.next, Breakable) && !Has(r, w.next, Bomb)
    ensures w.next in r.items && r.items[w.next] == k
    ensures r.enemies == w.enemies && r.lose == w.lose && r.log == w.log && r.draws == w.draws
    ensures Follows(w, r)
  {
    var v := NewNode(w, c, [Breakable, Item]);
    NewNodeSound(w, c, [Breakable, Item]);
    v.(items := v.items[w.next := k])
  }

  /** The item a draw `r = int(random() * 10)` puts: 4 to 6 a fire item, 7 to 9 a bomb item, else none. */
  function ItemFor(r: int): (k: Option<ItemKind>)
    ensures k == Some(FireUp) <==> 3 < r <= 6
    ensures k == Some(BombUp) <==> 6 < r <= 9
  {
    if 3 < r && r <= 6 then Some(FireUp)
    else if 6 < r && r <= 9 then Some(BombUp)
    else None
  }

  /** The draws left once one is taken: all but the first, or none once they ran out. */
  function Drawn(s: seq<int>): (r: seq<int>)
    ensures |s| > 0 ==> r == s[1..] && [s[0]] + r == s
    ensures |s| == 0 ==> r == []
  {
    if |s| > 0 then s[1..] else []
  }

  /**
   * `put_item_random(x, y)`: takes the next draw (0 once the draws run
   * out) and puts the item it selects, if any, at the cell.
   */
  function PutItemRandom(w: World, c: Cell): (r: World)
    ensures r.draws == Drawn(w.draws)
    ensures r.enemies == w.enemies && r.lose == w.lose && r.log == w.log
    ensures Follows(w, r)
  {
    var d := if |w.draws| > 0 then w.draws[0] else 0;
    var v := w.(draws := Drawn(w.draws));
    assert Follows(w, v);
    match ItemFor(d)
    case Some(k) =>
      var r := PutItem(v, c, k);
      FollowsTrans(w, v, r);
      r
    case None => v
  }

  /** `on_eat` of the two items: one more unit of bomb power, or one more bomb. */
  function Feed(s: Bomber, k: ItemKind): (r: Bomber)
    ensures k == FireUp ==> r.power == s.power + 1 && r.limit == s.limit
    ensures k == BombUp ==> r.limit == s.limit + 1 && r.power == s.power
    ensures r.delay == s.delay && r.current == s.current
  {
    match k
    case FireUp => s.(power := s.power + 1)
    case BombUp => s.(limit := s.limit + 1)
  }

  /** Taking a node off the map is a step every rule may take. */
  lemma RemoveFollows(w: World, n: NodeId)
    ensures Follows(w, w.(board := Remove(w.board, n)))
  {
    var r := w.(board := Remove(w.board, n));
    assert Armed(r) <= Armed(w);
    assert Drops(r) <= Drops(w);
    RemoveSound(w, n);
  }

  /**
   * `eat(who)` of `make_item`: the item's `on_eat` feeds the eater, the
   * item leaves the map and flies away.
   */
  function Eat(w: World, item: NodeId, who: NodeId): (r: World)
    ensures item !in r.board.at
    ensures forall d :: |Occupants(r.board, d)| <= |Occupants(w.board, d)|
    ensures who in w.bombers && item in w.items ==>
              who in r.bombers && r.bombers[who] == Feed(w.bombers[who], w.items[item])
    ensures r.log == w.log + [Eaten(item, who)]
  {
    var v := w.(board := Remove(w.board, item));
    RemoveNoLonger(w.board, item);
    var fed := if item in w.items && who in w.bombers then w.bombers[who := Feed(w.bombers[who], w.items[item])] else w.bombers;
    var t := Scheduler.AddAction(TimingOf(w, item), "eaten", 1.5, 0.0, true, false, false);
    v.(bombers := fed, timing := w.timing[item := t], log := w.log + [Eaten(item, who)])
  }

  /** Eating is a step every rule may take. */
  lemma EatFollows(w: World, item: NodeId, who: NodeId)
    ensures Follows(w, Eat(w, item, who))
  {
    var v := w.(board := Remove(w.board, item));
    RemoveFollows(w, item);
    var r := Eat(w, item, who);
    assert Follows(v, r);
  }

  /** Some node of the list is a bomb. */
  predicate HoldsBomb(w: World, s: seq<NodeId>) {
    exists i :: 0 <= i < |s| && Has(w, s[i], Bomb)
  }

  /**
   * `put_bomb(x, y, delay, power, bomber)`: refused (`False`) when the cell
   * already holds a bomb; otherwise a node flagged `BLOCK`, `BREAKABLE` and
   * `BOMB` joins the cell, with the fuse `delay`, and a `die` hook that
   * counts the bomber down and explodes at the cell with `power`.
   */
  function PutBomb(w: World, c: Cell, delay: real, power: int, bomber: NodeId): (r: (World, bool))
    ensures !r.1 <==> HoldsBomb(w, Occupants(w.board, c))
    ensures !r.1 ==> r.0 == w
    ensures r.1 ==> Occupants(r.0.board, c) == Occupants(w.board, c) + [w.next]
    ensures r.1 ==> forall d :: d != c ==> Occupants(r.0.board, d) == Occupants(w.board, d)
    ensures r.1 ==> forall f :: Has(r.0, w.next, f) <==> f in {Block, Breakable, Bomb}
    ensures r.1 ==> w.next in r.0.hooks && r.0.hooks[w.next] == Detonate(c.0, c.1, power, bomber)
    ensures r.1 ==> w.next in r.0.fuses && r.0.fuses[w.next] == delay
    ensures r.1 ==> r.0.next == w.next + 1 && r.0.bombers == w.bombers && r.0.log == w.log
  {
    if HoldsBomb(w, Occupants(w.board, c)) then (w, false)
    else
      var n := w.next;
      var v := NewNode(w, c, [Block, Breakable, Bomb]);
      (v.(hooks := v.hooks[n := Detonate(c.0, c.1, power, bomber)], fuses := v.fuses[n := delay]), true)
  }

  /**
   * `bomb()` of `make_bomber`: nothing at the limit; otherwise the count of
   * bombs out goes up first and a bomb is put at the bomber's cell, and the
   * count stays up even when `put_bomb` refuses.
   */
  function DropBomb(w: World, b: NodeId): (r: World)
    requires b in w.bombers && b in w.board.at
    ensures var s := w.bombers[b];
            s.current >= s.limit ==> r == w
    ensures var s := w.bombers[b];
            s.current < s.limit ==>
              b in r.bombers && r.bombers[b] == s.(current := s.current + 1)
              && r.log == w.log + [BombPlaced(b)]
    ensures var s := w.bombers[b];
            s.current < s.limit && !HoldsBomb(w, Occupants(w.board, w.board.at[b])) ==>
              |Occupants(r.board, w.board.at[b])| == |Occupants(w.board, w.board.at[b])| + 1
              && w.next in r.hooks && r.hooks[w.next] == Detonate(w.board.at[b].0, w.board.at[b].1, s.power, b)
              && w.next in r.fuses && r.fuses[w.next] == s.delay
  {
    var s := w.bombers[b];
    if s.current >= s.limit then w
    else
      var v := w.(bombers := w.bombers[b := s.(current := s.current + 1)]);
      var p := PutBomb(v, w.board.at[b], s.delay, s.power, b);
      p.0.(log := p.0.log + [BombPlaced(b)])
  }

  /**
   * The bomb limit leaks: a bomber at its cell's existing bomb still counts
   * one more bomb out, though no bomb was added.
   */
  lemma RefusedBombStillCounted(w: World, b: NodeId)
    requires b in w.bombers && b in w.board.at
    requires w.bombers[b].current < w.bombers[b].limit
    requires HoldsBomb(w, Occupants(w.board, w.board.at[b]))
    ensures var r := DropBomb(w, b);
            r.board == w.board && r.bombers[b].current == w.bombers[b].current + 1
  {
  }

  /** Soundness reads only the board and the next identity. */
  lemma SoundOnBoard(w: World, v: World)
    requires v.board == w.board && v.next == w.next
    ensures Sound(w) <==> Sound(v)
  {
  }

  /** A bomb put on the map keeps it sound. */
  lemma PutBombSound(w: World, c: Cell, delay: real, power: int, bomber: NodeId)
    ensures Sound(w) ==> Sound(PutBomb(w, c, delay, power, bomber).0)
  {
    NewNodeSound(w, c, [Block, Breakable, Bomb]);
  }

  /** So does `bomb()`. */
  lemma DropBombSound(w: World, b: NodeId)
    requires b in w.bombers && b in w.board.at
    ensures Sound(w) ==> Sound(DropBomb(w, b))
  {
    var s := w.bombers[b];
    if s.current < s.limit {
      var v := w.(bombers := w.bombers[b := s.(current := s.current + 1)]);
      PutBombSound(v, w.board.at[b], s.delay, s.power, b);
      var p := PutBomb(v, w.board.at[b], s.delay, s.power, b).0;
      SoundOnBoard(w, v);
      SoundOnBoard(p, DropBomb(w, b));
    }
  }

  /** The fuse of `make_bomb`'s `on_tick`: it burns by the interval, and the bomb goes off while it is below zero. */
  function FuseTick(delay: real, interval: real): (r: (real, bool))
    ensures r.0 + interval == delay
    ensures r.1 <==> delay < interval
  {
    var left := delay - interval;
    (left, left < 0.0)
  }

  /** A fuse that went below zero goes off again on every later tick with a non-negative interval. */
  lemma FuseKeepsFiring(delay: real, i1: real, i2: real)
    requires FuseTick(delay, i1).1 && i2 >= 0.0
    ensures FuseTick(FuseTick(delay, i1).0, i2).1
  {
  }

  /** `is_blocked`'s skip rules: a bomb-eater walks over bombs, a flyer over everything but bombs. */
  predicate Passes(w: World, mover: NodeId, target: NodeId) {
    (Has(w, mover, BombEater) && Has(w, target, Bomb))
    || (Has(w, mover, Flying) && !Has(w, target, Bomb))
  }

  /** A target that is not passed stops the mover when it is a block or of the mover's own side. */
  predicate Stops(w: World, mover: NodeId, target: NodeId) {
    Has(w, target, Block)
    || (Has(w, mover, Player) && Has(w, target, Player))
    || (Has(w, mover, Enemy) && Has(w, target, Enemy))
  }

  /** `is_blocked`'s loop over a cell list from position `i`, as the if/elif chain runs it. */
  function BlockedFrom(w: World, mover: NodeId, s: seq<NodeId>, i: nat): bool
    decreases |s| - i
  {
    if i >= |s| then false
    else if Has(w, mover, BombEater) && Has(w, s[i], Bomb) then BlockedFrom(w, mover, s, i + 1)
    else if Has(w, mover, Flying) && !Has(w, s[i], Bomb) then BlockedFrom(w, mover, s, i + 1)
    else if Has(w, s[i], Block) then true
    else if Has(w, mover, Player) && Has(w, s[i], Player) then true
    else if Has(w, mover, Enemy) && Has(w, s[i], Enemy) then true
    else BlockedFrom(w, mover, s, i + 1)
  }

  /** `is_blocked(node, x, y)`: outside the map, or the cell holds a node that stops the mover. */
  function IsBlocked(w: World, mover: NodeId, c: Cell): (r: bool)
    ensures !InMap(w.board, c) ==> r
  {
    if !InMap(w.board, c) then true
    else BlockedFrom(w, mover, Occupants(w.board, c), 0)
  }

  /** Inside the map, `is_blocked` holds exactly when some occupant is not passed and stops the mover. */
  lemma IsBlockedIff(w: World, mover: NodeId, c: Cell)
    requires InMap(w.board, c)
    ensures IsBlocked(w, mover, c) <==>
              exists i :: 0 <= i < |Occupants(w.board, c)| && !Passes(w, mover, Occupants(w.board, c)[i])
                                                           && Stops(w, mover, Occupants(w.board, c)[i])
  {
    BlockedFromIff(w, mover, Occupants(w.board, c), 0);
  }

  /** The loop finds a blocking node exactly when one exists at or after its start. */
  lemma {:induction false} BlockedFromIff(w: World, mover: NodeId, s: seq<NodeId>, i: nat)
    ensures BlockedFrom(w, mover, s, i) <==> exists k :: i <= k < |s| && !Passes(w, mover, s[k]) && Stops(w, mover, s[k])
    decreases |s| - i
  {
    if i < |s| {
      BlockedFromIff(w, mover, s, i + 1);
    }
  }

  /** A flying mover is blocked only by bombs (that are blocks) and by its own side. */
  lemma FlyerBlockedOnlyByBombs(w: World, mover: NodeId, c: Cell)
    requires InMap(w.board, c) && Has(w, mover, Flying) && !Has(w, mover, BombEater)
    requires forall m :: m in Occupants(w.board, c) ==> !Has(w, m, Bomb)
    ensures !IsBlocked(w, mover, c)
  {
    IsBlockedIff(w, mover, c);
  }

  /** `is_filled(x, y)`: inside the map and holding more than the floor. */
  function IsFilled(w: World, c: Cell): (r: bool)
    ensures r <==> InMap(w.board, c) && |Occupants(w.board, c)| >= 2
  {
    if !InMap(w.board, c) then false else |Occupants(w.board, c)| > 1
  }
}
