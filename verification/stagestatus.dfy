/**
 * The per-tick checks of `StageScene.on_tick`: the player's keys steer
 * its direction queue and drop bombs, the player loses on meeting an
 * enemy or a fire and eats the items it stands on, every enemy standing
 * in a live fire goes to die and leaves the enemy list (a bomb-eater
 * swallows the bombs it stands on), and the stage is won once the enemy
 * list is empty.
 *
 * Every cell list is read live, the way CPython's list iterator reads it
 * (a position into the list, re-read after every node). The enemy pass of
 * the source iterates `self.enemies` itself while removing from it, so the
 * enemy after one that dies is skipped for this tick; `EnemiesAliased`
 * models that, `EnemiesSnapshot` the pass over a copy of the list that the
 * code evidently intends, and `Status` uses the latter.
 */
module StageStatus {
  import opened Wrappers
  import opened Nodes
  import opened StageFlags
  import opened Grid
  import opened StageWorld
  import Explosion
  import Seqs
  import Walkers = Character

  /** A node the player must not share a cell with. */
  predicate Deadly(w: World, n: NodeId) {
    Has(w, n, Enemy) || Has(w, n, Fire)
  }

  /**
   * The player's check over the live list of its cell `c` from position
   * `i`: an enemy or a fire loses the game (and the loop goes on), an item
   * is eaten.
   */
  function PlayerFrom(w: World, c: Cell, i: nat): (r: World)
    ensures r.flags == w.flags && r.enemies == w.enemies && r.win == w.win && r.player == w.player
    ensures w.lose ==> r.lose
    ensures forall m :: m in Occupants(r.board, c) ==> m in Occupants(w.board, c)
    decreases |Occupants(w.board, c)| - i
  {
    var s := Occupants(w.board, c);
    if i >= |s| then w
    else
      var n := s[i];
      if Has(w, n, Enemy) then PlayerFrom(GameLose(w), c, i + 1)
      else if Has(w, n, Fire) then PlayerFrom(GameLose(w), c, i + 1)
      else if Has(w, n, Item) then
        var v := Eat(w, n, w.player);
        EatKeeps(w, n, w.player, c);
        PlayerFrom(v, c, i + 1)
      else PlayerFrom(w, c, i + 1)
  }

  /** Eating takes one node off the map and touches neither flags, enemies nor the win/lose flags. */
  lemma EatKeeps(w: World, item: NodeId, who: NodeId, c: Cell)
    ensures var v := Eat(w, item, who);
            v.flags == w.flags && v.enemies == w.enemies && v.win == w.win && v.lose == w.lose
            && v.player == w.player && |Occupants(v.board, c)| <= |Occupants(w.board, c)|
            && forall m :: m in Occupants(v.board, c) ==> m in Occupants(w.board, c)
  {
    assert Eat(w, item, who).board == Remove(w.board, item);
    RemoveOnlyDrops(w.board, item, c);
  }

  /** An enemy or fire at position `k` with no item before it (from `i` on) loses the game. */
  lemma {:induction false} PlayerFromLoses(w: World, c: Cell, i: nat, k: nat)
    requires i <= k < |Occupants(w.board, c)| && Deadly(w, Occupants(w.board, c)[k])
    requires forall j :: i <= j < k ==> !Has(w, Occupants(w.board, c)[j], Item)
    ensures PlayerFrom(w, c, i).lose
    decreases k - i
  {
    var n := Occupants(w.board, c)[i];
    if !Deadly(w, n) {
      PlayerFromLoses(w, c, i + 1, k);
    }
  }

  /** The game is lost only when it already was, or some enemy or fire was in the player's cell. */
  lemma {:induction false} PlayerFromLosesOnlyIf(w: World, c: Cell, i: nat)
    ensures PlayerFrom(w, c, i).lose ==>
              w.lose || exists m :: m in Occupants(w.board, c) && Deadly(w, m)
    decreases |Occupants(w.board, c)| - i
  {
    var s := Occupants(w.board, c);
    if i < |s| {
      var n := s[i];
      if Deadly(w, n) {
      } else if Has(w, n, Item) {
        var v := Eat(w, n, w.player);
        EatKeeps(w, n, w.player, c);
        PlayerFromLosesOnlyIf(v, c, i + 1);
      } else {
        PlayerFromLosesOnlyIf(w, c, i + 1);
      }
    }
  }

  /**
   * The player's part of `on_tick`: nothing once the game is won or lost;
   * `get_cell` of a player off the map raises (`None`).
   */
  function PlayerCheck(w: World): (r: Option<World>)
    ensures (w.lose || w.win) ==> r == Some(w)
    ensures r.None? <==> !w.lose && !w.win && w.player !in w.board.at
    ensures r.Some? ==> r.value.flags == w.flags && r.value.enemies == w.enemies && r.value.win == w.win
    ensures r.Some? && w.lose ==> r.value.lose
  {
    if w.lose || w.win then Some(w)
    else if w.player !in w.board.at then None
    else Some(PlayerFrom(w, w.board.at[w.player], 0))
  }

  /**
   * `n.bomber.cur_bomb_count -= 1; self.map.remove_node(n)`: a bomb-eater
   * swallows bomb `n`: the bomb leaves the map without exploding and its
   * bomber may drop one more.
   */
  function Swallow(w: World, n: NodeId): (r: World)
    ensures n !in r.board.at && r.flags == w.flags && r.enemies == w.enemies && r.log == w.log
    ensures n in w.hooks && w.hooks[n].Detonate? && w.hooks[n].bomber in w.bombers ==>
              var b := w.hooks[n].bomber;
              b in r.bombers && r.bombers[b].current == w.bombers[b].current - 1
    ensures Follows(w, r)
  {
    var v := w.(board := Remove(w.board, n));
    RemoveFollows(w, n);
    if n in w.hooks && w.hooks[n].Detonate? then
      Explosion.CountDownFollows(v, w.hooks[n].bomber);
      FollowsTrans(w, v, Explosion.CountDown(v, w.hooks[n].bomber));
      Explosion.CountDown(v, w.hooks[n].bomber)
    else v
  }

  /** A fire marker that is not dead: what kills an enemy standing on it. */
  predicate Burning(w: World, n: NodeId) {
    Has(w, n, Fire) && !Has(w, n, Dead)
  }

  /** `e.go_die(); self.enemies.remove(e)`: an enemy in a fire dies and leaves the enemy list. */
  function Defeat(w: World, e: NodeId): (r: World)
    ensures Follows(w, r)
    ensures e in w.dying ==> r.enemies == Seqs.RemoveFirst(w.enemies, e)
    ensures e < w.next ==> Has(r, e, Dead)
    ensures e in w.dying ==> r.board == w.board && r.dying == w.dying && r.flags == StageObj(w.flags, e, Dead)
  {
    var v := Explosion.GoDie(w, e);
    Explosion.GoDieFollows(w, e);
    GoDieMarksLive(w, e);
    Seqs.RemoveFirstNoLonger(v.enemies, e);
    var r := v.(enemies := Seqs.RemoveFirst(v.enemies, e));
    FollowsTrans(w, v, r);
    r
  }

  /**
   * Enemy `e`'s check over the live list of its cell `c` from position
   * `j`: at the first live fire it goes to die and leaves the enemy list
   * (`break`); a bomb-eater swallows every bomb before that. The flag says
   * whether it died.
   */
  function EnemyFrom(w: World, e: NodeId, c: Cell, j: nat): (r: (World, bool))
    ensures Follows(w, r.0)
    ensures !r.1 ==> r.0.enemies == w.enemies && r.0.flags == w.flags
    ensures r.1 && e in w.dying ==> r.0.enemies == Seqs.RemoveFirst(w.enemies, e)
    ensures r.1 && e < w.next ==> Has(r.0, e, Dead)
    decreases |Occupants(w.board, c)| - j
  {
    var s := Occupants(w.board, c);
    if j >= |s| then (w, false)
    else
      var n := s[j];
      if Burning(w, n) then (Defeat(w, e), true)
      else if Has(w, e, BombEater) && Has(w, n, Bomb) then
        var v := Swallow(w, n);
        RemoveNoLonger(w.board, n);
        var r := EnemyFrom(v, e, c, j + 1);
        FollowsTrans(w, v, r.0);
        r
      else
        EnemyFrom(w, e, c, j + 1)
  }

  /** `go_die` flags a node that exists as dead. */
  lemma GoDieMarksLive(w: World, e: NodeId)
    ensures e < w.next ==> Has(Explosion.GoDie(w, e), e, Dead)
  {
    if e < w.next {
      Explosion.GoDieMarks(w, e);
    }
  }

  /** A live fire at position `j` kills the enemy there and then. */
  lemma EnemyFromBurns(w: World, e: NodeId, c: Cell, j: nat)
    requires j < |Occupants(w.board, c)| && Burning(w, Occupants(w.board, c)[j])
    ensures EnemyFrom(w, e, c, j) == (Defeat(w, e), true)
  {
  }

  /** An enemy that eats no bombs passes over a node that does not burn. */
  lemma EnemyFromPasses(w: World, e: NodeId, c: Cell, j: nat)
    requires !Has(w, e, BombEater)
    requires j < |Occupants(w.board, c)| && !Burning(w, Occupants(w.board, c)[j])
    ensures EnemyFrom(w, e, c, j) == EnemyFrom(w, e, c, j + 1)
  {
  }

  /** An enemy that eats no bombs dies exactly when some node of its cell burns. */
  lemma {:induction false} EnemyFromDiesIff(w: World, e: NodeId, c: Cell, j: nat)
    requires !Has(w, e, BombEater)
    ensures EnemyFrom(w, e, c, j).1 <==> exists k :: j <= k < |Occupants(w.board, c)| && Burning(w, Occupants(w.board, c)[k])
    ensures EnemyFrom(w, e, c, j).0 == if EnemyFrom(w, e, c, j).1 then Defeat(w, e) else w
    decreases |Occupants(w.board, c)| - j
  {
    var s := Occupants(w.board, c);
    if j < |s| {
      if Burning(w, s[j]) {
        EnemyFromBurns(w, e, c, j);
      } else {
        EnemyFromPasses(w, e, c, j);
        EnemyFromDiesIff(w, e, c, j + 1);
        assert (exists k :: j <= k < |s| && Burning(w, s[k])) <==> (exists k :: j + 1 <= k < |s| && Burning(w, s[k]));
      }
    }
  }

  /** `for e in tmp` with `tmp = self.enemies`: the live list, so a removal shifts the next enemy into the slot just handled. */
  function EnemiesAliased(w: World, i: nat): (r: Option<World>)
    ensures r.Some? ==> Follows(w, r.value)
    decreases |w.enemies| - i
  {
    if i >= |w.enemies| then Some(w)
    else
      var e := w.enemies[i];
      if e !in w.board.at then None
      else
        var v := EnemyFrom(w, e, w.board.at[e], 0).0;
        var r := EnemiesAliased(v, i + 1);
        if r.Some? then FollowsTrans(w, v, r.value); r else r
  }

  /** The enemy pass over a copy `s` of the enemy list: every enemy of the copy is checked once. */
  function EnemiesSnapshot(w: World, s: seq<NodeId>): (r: Option<World>)
    ensures r.Some? ==> Follows(w, r.value)
    decreases |s|
  {
    if |s| == 0 then Some(w)
    else if s[0] !in w.board.at then None
    else
      var v := EnemyFrom(w, s[0], w.board.at[s[0]], 0).0;
      var r := EnemiesSnapshot(v, s[1..]);
      if r.Some? then FollowsTrans(w, v, r.value); r else r
  }

  /** `len(self.enemies) == 0 and not self.win`: the stage is won once, when the enemy list runs empty. */
  function WinCheck(w: World): (r: World)
    ensures r.win <==> w.win || |w.enemies| == 0
    ensures !w.win && |w.enemies| == 0 ==> r.log == w.log + [Won]
    ensures w.win || |w.enemies| > 0 ==> r == w
  {
    if |w.enemies| == 0 && !w.win then GameWin(w) else w
  }

  /**
   * The checks of `on_tick` after the keys, as written: the player's check,
   * the enemy pass over the live enemy list, and the win check. As in the
   * corrected `Status`, the stage ends up won exactly when it was already
   * won or no enemy is left, and a game once lost stays lost.
   */
  function StatusAsWritten(w: World): (r: Option<World>)
    ensures r.Some? ==> (r.value.win <==> w.win || |r.value.enemies| == 0)
    ensures r.Some? && w.lose ==> r.value.lose
    ensures r.Some? ==> multiset(r.value.enemies) <= multiset(w.enemies)
  {
    var p :- PlayerCheck(w);
    var q :- EnemiesAliased(p, 0);
    Some(WinCheck(q))
  }

  /**
   * The checks of `on_tick` after the keys: the player's check, the enemy
   * pass over a copy of the enemy list, and the win check. The stage ends
   * up won exactly when it was already won or no enemy is left, and a
   * game once lost stays lost.
   */
  function Status(w: World): (r: Option<World>)
    ensures r.Some? ==> (r.value.win <==> w.win || |r.value.enemies| == 0)
    ensures r.Some? && w.lose ==> r.value.lose
    ensures r.Some? ==> multiset(r.value.enemies) <= multiset(w.enemies)
  {
    var p :- PlayerCheck(w);
    var q :- EnemiesSnapshot(p, p.enemies);
    Some(WinCheck(q))
  }

  /** Enemy `e` stands on a live fire that is none of the enemies `s`. */
  predicate InFire(w: World, e: NodeId, s: seq<NodeId>) {
    e in w.board.at &&
    exists k :: 0 <= k < |Occupants(w.board, w.board.at[e])| && Burning(w, Occupants(w.board, w.board.at[e])[k])
                && Occupants(w.board, w.board.at[e])[k] !in s
  }

  /** The enemies `s` are listed once each, go down through `on_go_die`, eat no bombs and each stands on a live fire. */
  predicate AllInFire(w: World, s: seq<NodeId>) {
    Seqs.NoDup(s) &&
    forall i :: 0 <= i < |s| ==> s[i] in w.dying && !Has(w, s[i], BombEater) && InFire(w, s[i], s)
  }

  /** One defeated enemy leaves the others' fires burning. */
  lemma DefeatKeepsFires(w: World, s: seq<NodeId>)
    requires |s| > 0 && AllInFire(w, s)
    ensures AllInFire(Defeat(w, s[0]), s[1..])
  {
    var v := Defeat(w, s[0]);
    Seqs.NoDupTail(s);
    forall i | 0 <= i < |s| - 1
      ensures s[1..][i] in v.dying && !Has(v, s[1..][i], BombEater) && InFire(v, s[1..][i], s[1..])
    {
      var e := s[i + 1];
      assert InFire(w, e, s);
      var cs := Occupants(w.board, w.board.at[e]);
      var k :| 0 <= k < |cs| && Burning(w, cs[k]) && cs[k] !in s;
      assert cs[k] != s[0];
      assert Burning(v, cs[k]);
    }
  }

  /** The corrected pass removes every enemy of a list whose members all stand on live fires. */
  lemma {:induction false} SnapshotClears(w: World)
    requires AllInFire(w, w.enemies)
    ensures EnemiesSnapshot(w, w.enemies).Some? && EnemiesSnapshot(w, w.enemies).value.enemies == []
    decreases |w.enemies|
  {
    var s := w.enemies;
    if |s| > 0 {
      var e := s[0];
      assert InFire(w, e, s);
      var c := w.board.at[e];
      var k :| 0 <= k < |Occupants(w.board, c)| && Burning(w, Occupants(w.board, c)[k]) && Occupants(w.board, c)[k] !in s;
      EnemyFromDiesIff(w, e, c, 0);
      var v := Defeat(w, e);
      assert v.enemies == s[1..];
      DefeatKeepsFires(w, s);
      SnapshotClears(v);
    }
  }

  /** With every enemy standing on a live fire, the corrected checks win the stage. */
  lemma AllInFireWins(w: World)
    requires PlayerCheck(w).Some? && AllInFire(PlayerCheck(w).value, w.enemies)
    ensures Status(w).Some? && Status(w).value.win
  {
    SnapshotClears(PlayerCheck(w).value);
  }

  /**
   * A 2x1 stage: enemies 1 and 2 and a live fire 3 in cell (0, 0), the
   * player 0 in cell (1, 0).
   */
  function TwoInFire(): World {
    var b := Board(2, 1, map[(0, 0) := [1, 2, 3], (1, 0) := [0]],
                   map[0 := (1, 0), 1 := (0, 0), 2 := (0, 0), 3 := (0, 0)]);
    var fl: FlagTable := map[0 := {Player, Character, Breakable}, 1 := {Enemy, Character, Breakable},
                             2 := {Enemy, Character, Breakable}, 3 := {Fire}];
    World(b, fl, map[0 := LoseGame], {1, 2}, map[], map[], map[], map[], 0, [1, 2], false, false, [], 4, [])
  }

  /** In the stage above the player's check finds nothing, and enemy 1 dies in the fire. */
  lemma TwoInFireFirst()
    ensures PlayerCheck(TwoInFire()) == Some(TwoInFire())
    ensures EnemyFrom(TwoInFire(), 1, (0, 0), 0) == (Defeat(TwoInFire(), 1), true)
  {
    var w := TwoInFire();
    assert PlayerFrom(w, (1, 0), 0) == PlayerFrom(w, (1, 0), 1);
    assert Burning(w, Occupants(w.board, (0, 0))[2]);
    EnemyFromDiesIff(w, 1, (0, 0), 0);
  }

  /** After enemy 1 dies only enemy 2 is listed, still alive, and the fire still burns in its cell. */
  lemma TwoInFireAfterFirst()
    ensures var v := Defeat(TwoInFire(), 1);
            v.enemies == [2] && !Has(v, 2, Dead) && !Has(v, 2, BombEater) && 2 in v.dying
            && v.board == TwoInFire().board && Burning(v, 3)
  {
    var w := TwoInFire();
    assert 1 in w.dying && w.enemies == [1, 2];
    var v := Defeat(w, 1);
    assert v.enemies == [2] by {
      Seqs.RemoveFirstHead([1, 2], 1);
      assert [1, 2][1..] == [2];
    }
    assert v.flags == StageObj(w.flags, 1, Dead);
    TwoInFireFlags();
    assert v.flags[2] == w.flags[2] && v.flags[3] == w.flags[3];
  }

  /** In the stage above enemy 2 is alive and eats no bombs, and node 3 is a live fire. */
  lemma TwoInFireFlags()
    ensures var t := TwoInFire().flags;
            2 in t && Dead !in t[2] && BombEater !in t[2] && 3 in t && Fire in t[3] && Dead !in t[3]
  {
  }

  /** Enemy 2 then dies too, and the list runs empty. */
  lemma TwoInFireSecond()
    ensures var v := Defeat(TwoInFire(), 1);
            EnemyFrom(v, 2, (0, 0), 0) == (Defeat(v, 2), true) && Defeat(v, 2).enemies == []
            && Has(Defeat(v, 2), 1, Dead) && Has(Defeat(v, 2), 2, Dead)
  {
    var v := Defeat(TwoInFire(), 1);
    TwoInFireAfterFirst();
    assert Occupants(v.board, (0, 0))[2] == 3;
    EnemyFromDiesIff(v, 2, (0, 0), 0);
    Seqs.RemoveFirstHead([2], 2);
    assert [2][1..] == [];
  }

  /** As written, enemy 2 slides into the slot of enemy 1 as it dies and is never checked: it survives in the fire and the stage is not won. */
  lemma AliasedSkipsEnemy()
    ensures var r := StatusAsWritten(TwoInFire());
            r.Some? && r.value.enemies == [2] && !r.value.win && !Has(r.value, 2, Dead)
  {
    TwoInFireFirst();
    TwoInFireAfterFirst();
    var v := Defeat(TwoInFire(), 1);
    assert EnemiesAliased(TwoInFire(), 0) == EnemiesAliased(v, 1) == Some(v);
  }

  /** The corrected pass checks both enemies: both die and the stage is won. */
  lemma SnapshotKillsBoth()
    ensures var r := Status(TwoInFire());
            r.Some? && r.value.enemies == [] && r.value.win && Has(r.value, 1, Dead) && Has(r.value, 2, Dead)
  {
    TwoInFireFirst();
    TwoInFireAfterFirst();
    TwoInFireSecond();
    var v := Defeat(TwoInFire(), 1);
    assert EnemiesSnapshot(TwoInFire(), [1, 2]) == EnemiesSnapshot(v, [2]) == Some(Defeat(v, 2));
  }

  /** `make_trackingfloor`: the floor tile at `pos` and whether the player is on it (`entered`). */
  datatype Floor = Floor(pos: Cell, entered: bool)

  /** The callbacks of a tracking floor. */
  datatype FloorCall = OnEnter | OnLeave

  /**
   * The tracking floor's `on_tick`: `on_enter` when the player's cell has
   * become the floor's, `on_leave` when it has stopped being it, nothing
   * otherwise. `get_cell` of a player off the map raises (`None`).
   */
  function FloorTick(f: Floor, w: World): (r: Option<(Floor, Option<FloorCall>)>)
    ensures r.None? <==> w.player !in w.board.at
    ensures r.Some? ==> r.value.0.pos == f.pos && r.value.0.entered == (w.board.at[w.player] == f.pos)
    ensures r.Some? ==> (r.value.1 == Some(OnEnter) <==> !f.entered && r.value.0.entered)
    ensures r.Some? ==> (r.value.1 == Some(OnLeave) <==> f.entered && !r.value.0.entered)
  {
    if w.player !in w.board.at then None
    else Some(FloorStep(f, w.board.at[w.player]))
  }

  /** One tick of the floor with the player in cell `p`. */
  function FloorStep(f: Floor, p: Cell): (r: (Floor, Option<FloorCall>))
    ensures r.0 == f.(entered := p == f.pos)
    ensures r.1.Some? <==> r.0.entered != f.entered
    ensures r.1 == Some(OnEnter) ==> r.0.entered
  {
    var same := p == f.pos;
    if same && !f.entered then (f.(entered := true), Some(OnEnter))
    else if !same && f.entered then (f.(entered := false), Some(OnLeave))
    else (f, None)
  }

  /** The floor's callbacks while the player walks through the cells of `path`, one per tick. */
  function FloorCalls(f: Floor, path: seq<Cell>): (r: seq<FloorCall>)
    ensures |r| <= |path|
    decreases |path|
  {
    if |path| == 0 then []
    else
      var s := FloorStep(f, path[0]);
      (if s.1.Some? then [s.1.value] else []) + FloorCalls(s.0, path[1..])
  }

  /**
   * Along any walk the floor's callbacks alternate, starting with the one
   * that leaves the state it started in: `on_enter` and `on_leave` each
   * fire once per visit.
   */
  lemma {:induction false} FloorCallsAlternate(f: Floor, path: seq<Cell>)
    ensures var r := FloorCalls(f, path);
            (|r| > 0 ==> r[0] == (if f.entered then OnLeave else OnEnter)) &&
            (forall i :: 0 <= i < |r| - 1 ==> r[i + 1] != r[i])
    decreases |path|
  {
    if |path| > 0 {
      var s := FloorStep(f, path[0]);
      FloorCallsAlternate(s.0, path[1..]);
    }
  }

  /** After a walk, `entered` says whether the player's last cell is the floor's. */
  lemma {:induction false} FloorMirrorsPlayer(f: Floor, path: seq<Cell>)
    requires |path| > 0
    ensures FloorAfter(f, path).entered == (path[|path| - 1] == f.pos)
    ensures FloorAfter(f, path).pos == f.pos
    decreases |path|
  {
    if |path| > 1 {
      FloorMirrorsPlayer(FloorStep(f, path[0]).0, path[1..]);
    }
  }

  /** The floor after the walk `path`. */
  function FloorAfter(f: Floor, path: seq<Cell>): Floor
    decreases |path|
  {
    if |path| == 0 then f else FloorAfter(FloorStep(f, path[0]).0, path[1..])
  }
}
