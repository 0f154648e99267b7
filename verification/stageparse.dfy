/**
 * `StageScene.parse`: the stage string is stripped of surrounding
 * whitespace and split at newlines; cell `(x, y)` of a `cols` by `rows`
 * map reads character `x` of line `y`, row by row. A character names the
 * piece created there ('x' hard block, 'o' soft block, '.' dummy, '@' the
 * player, 'A' to 'D' the four enemies) or nothing. A missing or short
 * line makes the source raise `IndexError` (`None` here). After the scan
 * the dummies, which only keep random soft blocks away from their cells,
 * leave the map again.
 */
module StageParse {
  import opened Wrappers
  import opened Nodes
  import opened StageFlags
  import opened Grid
  import opened StageWorld

  /** The four enemy kinds: 'A' normal, 'B' bomb-eater, 'C' flying, 'D' bomb-dropping. */
  datatype Foe = Normal | Eater | Flyer | Dropper

  /** What a character of the stage string creates. */
  datatype Piece = HardBlock | SoftBlock | Dummy | PlayerPiece | FoePiece(kind: Foe)

  /** A piece created at cell `(x, y)`. */
  datatype Placed = Placed(piece: Piece, x: int, y: int)

  /** The characters Python 2's `str.strip()` removes. */
  predicate IsSpace(ch: char) {
    ch == ' ' || ch == '\t' || ch == '\n' || ch == '\r' || ch == '\U{b}' || ch == '\U{c}'
  }

  /** The leading whitespace removed. */
  function DropLeading(s: string): (r: string)
    ensures |r| <= |s| && r == s[|s| - |r|..]
    ensures |r| == 0 || !IsSpace(r[0])
    ensures forall i :: 0 <= i < |s| - |r| ==> IsSpace(s[i])
  {
    if |s| > 0 && IsSpace(s[0]) then DropLeading(s[1..]) else s
  }

  /** The trailing whitespace removed. */
  function DropTrailing(s: string): (r: string)
    ensures |r| <= |s| && r == s[..|r|]
    ensures |r| == 0 || !IsSpace(r[|r| - 1])
    ensures forall i :: |r| <= i < |s| ==> IsSpace(s[i])
  {
    if |s| > 0 && IsSpace(s[|s| - 1]) then DropTrailing(s[..|s| - 1]) else s
  }

  /** `str.strip()`. */
  function Strip(s: string): string {
    DropTrailing(DropLeading(s))
  }

  /**
   * `strip` removes whitespace only, and all of it at both ends: the
   * result is a piece of `s` between two runs of whitespace, and it neither
   * starts nor ends with whitespace.
   */
  lemma StripTrims(s: string)
    ensures var r := Strip(s);
            (|r| == 0 || (!IsSpace(r[0]) && !IsSpace(r[|r| - 1])))
            && exists a, b :: 0 <= a <= b <= |s| && r == s[a..b]
                 && (forall i :: 0 <= i < a ==> IsSpace(s[i]))
                 && (forall i :: b <= i < |s| ==> IsSpace(s[i]))
  {
    var l := DropLeading(s);
    var r := DropTrailing(l);
    var a := |s| - |l|;
    var b := a + |r|;
    assert l == s[a..] && r == l[..|r|];
    assert r == s[a..b];
    forall i | b <= i < |s| ensures IsSpace(s[i]) {
      assert s[i] == l[i - a];
    }
    assert 0 <= a <= b <= |s| && r == s[a..b] && forall i :: 0 <= i < a ==> IsSpace(s[i]);
  }

  /** A string that already has no whitespace at either end is left alone. */
  lemma StripTrimmed(s: string)
    requires |s| == 0 || (!IsSpace(s[0]) && !IsSpace(s[|s| - 1]))
    ensures Strip(s) == s
  {
  }

  /** `str.split('\n')`: the pieces between newlines; a string without one is a single piece. */
  function Lines(s: string): (r: seq<string>)
    ensures |r| >= 1
    decreases |s|
  {
    if |s| == 0 then [""]
    else
      var rest := Lines(s[1..]);
      if s[0] == '\n' then [""] + rest else [[s[0]] + rest[0]] + rest[1..]
  }

  /** `'\n'.join(parts)`. */
  function Join(parts: seq<string>): string
    requires |parts| >= 1
    decreases |parts|
  {
    if |parts| == 1 then parts[0] else parts[0] + "\n" + Join(parts[1..])
  }

  /** No piece of a split holds a newline, and joining the pieces gives the string back. */
  lemma {:induction false} LinesJoin(s: string)
    ensures forall i :: 0 <= i < |Lines(s)| ==> '\n' !in Lines(s)[i]
    ensures Join(Lines(s)) == s
    decreases |s|
  {
    if |s| > 0 {
      var rest := Lines(s[1..]);
      LinesJoin(s[1..]);
      if s[0] == '\n' {
        assert Lines(s)[1..] == rest;
        assert s == [s[0]] + s[1..];
      } else {
        var r := Lines(s);
        assert r[0] == [s[0]] + rest[0];
        assert r[1..] == rest[1..];
        if |rest| == 1 {
          assert s == [s[0]] + rest[0];
        } else {
          assert Join(rest) == rest[0] + "\n" + Join(rest[1..]);
          assert s == [s[0]] + s[1..];
        }
      }
    }
  }

  /** Pieces without newlines come back from splitting their join. */
  lemma {:induction false} JoinLines(parts: seq<string>)
    requires |parts| >= 1 && forall i :: 0 <= i < |parts| ==> '\n' !in parts[i]
    ensures Lines(Join(parts)) == parts
    decreases |parts|, |parts[0]|
  {
    var p := parts[0];
    if |p| > 0 {
      var q := [p[1..]] + parts[1..];
      assert '\n' !in q[0];
      assert forall i :: 1 <= i < |q| ==> q[i] == parts[i];
      JoinLines(q);
      assert Join(parts) == [p[0]] + Join(q) by {
        if |parts| > 1 {
          assert Join(q) == p[1..] + "\n" + Join(parts[1..]);
        }
      }
      assert Join(parts)[1..] == Join(q);
      assert p == [p[0]] + p[1..];
    } else if |parts| > 1 {
      assert Join(parts) == "\n" + Join(parts[1..]);
      assert Join(parts)[1..] == Join(parts[1..]);
      JoinLines(parts[1..]);
    }
  }

  /** A string without a newline is a single line. */
  lemma {:induction false} LinesSingle(s: string)
    requires '\n' !in s
    ensures Lines(s) == [s]
    decreases |s|
  {
    if |s| > 0 {
      assert '\n' !in s[1..] by {
        forall i | 0 <= i < |s| - 1
          ensures s[1..][i] != '\n'
        {
          assert s[1..][i] == s[i + 1];
        }
      }
      LinesSingle(s[1..]);
      assert [s[0]] + s[1..] == s;
    }
  }

  /** The piece a stage character creates; other characters are skipped. */
  function PieceOf(ch: char): Option<Piece> {
    match ch
    case 'x' => Some(HardBlock)
    case '@' => Some(PlayerPiece)
    case '.' => Some(Dummy)
    case 'o' => Some(SoftBlock)
    case 'A' => Some(FoePiece(Normal))
    case 'B' => Some(FoePiece(Eater))
    case 'C' => Some(FoePiece(Flyer))
    case 'D' => Some(FoePiece(Dropper))
    case _ => None
  }

  /** Cell `a` comes before cell `b` in the row-by-row scan. */
  predicate Before(a: Placed, b: Placed) {
    a.y < b.y || (a.y == b.y && a.x < b.x)
  }

  /** The scan lists its pieces in scan order. */
  predicate ScanOrdered(s: seq<Placed>) {
    forall i, j :: 0 <= i < j < |s| ==> Before(s[i], s[j])
  }

  /** `rows[y][x]` for `x` from `x0` up to `cols`: `IndexError` once the line runs out. */
  function ScanRow(line: string, y: int, x0: nat, cols: nat): (r: Option<seq<Placed>>)
    ensures r.None? <==> x0 < cols && |line| < cols
    ensures r.Some? ==> forall q :: q in r.value <==>
              q.y == y && x0 <= q.x < cols && PieceOf(line[q.x]) == Some(q.piece)
    ensures r.Some? ==> ScanOrdered(r.value) && forall i :: 0 <= i < |r.value| ==> x0 <= r.value[i].x
    decreases cols - x0
  {
    if x0 >= cols then Some([])
    else if x0 >= |line| then None
    else
      var rest :- ScanRow(line, y, x0 + 1, cols);
      var here := match PieceOf(line[x0])
                  case Some(p) => [Placed(p, x0, y)]
                  case None => [];
      Some(here + rest)
  }

  /** A character naming a piece puts that piece in front of the rest of the row. */
  lemma ScanRowPiece(line: string, y: int, x0: nat, cols: nat, p: Piece, rest: seq<Placed>)
    requires x0 < cols && x0 < |line| && PieceOf(line[x0]) == Some(p)
    requires ScanRow(line, y, x0 + 1, cols) == Some(rest)
    ensures ScanRow(line, y, x0, cols) == Some([Placed(p, x0, y)] + rest)
  {
  }

  /**
   * The nested loops of `parse` from row `y0` on: a row is only read when
   * the map has columns, and a missing row raises like a short one.
   */
  function ScanRows(lines: seq<string>, y0: nat, cols: nat, rows: nat): (r: Option<seq<Placed>>)
    ensures r.Some? ==> ScanOrdered(r.value) && forall i :: 0 <= i < |r.value| ==> y0 <= r.value[i].y
    decreases rows - y0
  {
    if y0 >= rows then Some([])
    else
      var here :- if y0 < |lines| then ScanRow(lines[y0], y0, 0, cols)
                  else if cols == 0 then Some([]) else None;
      var rest :- ScanRows(lines, y0 + 1, cols, rows);
      Some(here + rest)
  }

  /** Line `y` of `lines` is too short for a map `cols` wide, or missing. */
  predicate ShortLine(lines: seq<string>, y: nat, cols: nat) {
    cols > 0 && (y >= |lines| || |lines[y]| < cols)
  }

  /**
   * The scan fails exactly when some row of the map has no full line, and
   * otherwise creates a piece at every cell whose character names one and
   * at no other place.
   */
  lemma {:induction false} ScanRowsSpec(lines: seq<string>, y0: nat, cols: nat, rows: nat)
    ensures ScanRows(lines, y0, cols, rows).None? <==> exists y :: y0 <= y < rows && ShortLine(lines, y, cols)
    ensures ScanRows(lines, y0, cols, rows).Some? ==> forall q :: q in ScanRows(lines, y0, cols, rows).value <==>
              y0 <= q.y < rows && 0 <= q.x < cols && q.y < |lines| && q.x < |lines[q.y]|
              && PieceOf(lines[q.y][q.x]) == Some(q.piece)
  {
    ScanRowsFails(lines, y0, cols, rows);
    ScanRowsPlaces(lines, y0, cols, rows);
  }

  lemma {:induction false} ScanRowsFails(lines: seq<string>, y0: nat, cols: nat, rows: nat)
    ensures ScanRows(lines, y0, cols, rows).None? <==> exists y :: y0 <= y < rows && ShortLine(lines, y, cols)
    decreases rows - y0
  {
    if y0 < rows {
      ScanRowsFails(lines, y0 + 1, cols, rows);
      if ShortLine(lines, y0, cols) {
        assert ScanRows(lines, y0, cols, rows).None?;
      }
    }
  }

  lemma {:induction false} ScanRowsPlaces(lines: seq<string>, y0: nat, cols: nat, rows: nat)
    ensures ScanRows(lines, y0, cols, rows).Some? ==> forall q :: q in ScanRows(lines, y0, cols, rows).value <==>
              y0 <= q.y < rows && 0 <= q.x < cols && q.y < |lines| && q.x < |lines[q.y]|
              && PieceOf(lines[q.y][q.x]) == Some(q.piece)
    decreases rows - y0
  {
    if y0 < rows && ScanRows(lines, y0, cols, rows).Some? {
      ScanRowsPlaces(lines, y0 + 1, cols, rows);
      if cols == 0 {
        assert forall q: Placed :: !(0 <= q.x < cols);
      }
    }
  }

  /** The pieces of a stage string on a `cols` by `rows` map, in creation order. */
  function Layout(text: string, cols: nat, rows: nat): Option<seq<Placed>> {
    ScanRows(Lines(Strip(text)), 0, cols, rows)
  }

  /** `make_bomber`'s defaults: a five-second fuse, power 1, one bomb at a time, none on the map. */
  const FreshBomber: Bomber := Bomber(5.0, 1, 1, 0)

  /**
   * The capabilities each `create_*_at` gives its node, in the order the
   * helpers set them: `fireblocking(block(...))`, `block` and
   * `make_breakable`, `player`/`enemy` with the enemy's own flag, then
   * `make_character` and `make_breakable`. A dummy has none.
   */
  function FlagsOf(p: Piece): (r: seq<Flag>)
    ensures Enemy in r <==> p.FoePiece?
    ensures Player in r <==> p == PlayerPiece
    ensures Breakable in r <==> p != HardBlock && p != Dummy
    ensures Block in r <==> p == HardBlock || p == SoftBlock
    ensures FireBlocking in r <==> p == HardBlock
    ensures BombEater in r <==> p == FoePiece(Eater)
    ensures Flying in r <==> p == FoePiece(Flyer)
    ensures Fire !in r && Bomb !in r && Item !in r && Dead !in r
  {
    match p
    case HardBlock => [Block, FireBlocking]
    case SoftBlock => [Block, Breakable]
    case Dummy => []
    case PlayerPiece => [Player, Character, Breakable]
    case FoePiece(k) =>
      match k
      case Normal => [Enemy, Character, Breakable]
      case Eater => [Enemy, BombEater, Character, Breakable]
      case Flyer => [Enemy, Flying, Character, Breakable]
      case Dropper => [Enemy, Character, Breakable]
  }

  /** A soft block's `put_item_random(x, y)` or the player's `game_lose` as the new node's `on_die`. */
  function HookOf(h: map<NodeId, Hook>, n: NodeId, q: Placed): map<NodeId, Hook> {
    if q.piece == SoftBlock then h[n := DropItem(q.x, q.y)]
    else if q.piece == PlayerPiece then h[n := LoseGame]
    else h - {n}
  }

  /** An enemy's `on_go_die`. */
  function DyingOf(d: set<NodeId>, n: NodeId, q: Placed): set<NodeId> {
    if q.piece.FoePiece? then d + {n} else d - {n}
  }

  /** `make_bomber` for the player and the 'D' enemy. */
  function BombersOf(b: map<NodeId, Bomber>, n: NodeId, q: Placed): map<NodeId, Bomber> {
    if q.piece == PlayerPiece || q.piece == FoePiece(Dropper) then b[n := FreshBomber] else b - {n}
  }

  /** Each piece of `ps` joins the map in its cell, the node of `ps[i]` being `base + i`. */
  function AddAll(b: Board, base: NodeId, ps: seq<Placed>): (r: Board)
    ensures r.cols == b.cols && r.rows == b.rows
    decreases |ps|
  {
    if |ps| == 0 then b else AddAll(Add(b, base, (ps[0].x, ps[0].y)), base + 1, ps[1..])
  }

  /** Each node of `ps` flagged with its piece's capabilities. */
  function FlagAll(t: FlagTable, base: NodeId, ps: seq<Placed>): FlagTable
    decreases |ps|
  {
    if |ps| == 0 then t else FlagAll(Fresh(t, base, FlagsOf(ps[0].piece)), base + 1, ps[1..])
  }

  /** Each node of `ps` given its `on_die`. */
  function HookAll(h: map<NodeId, Hook>, base: NodeId, ps: seq<Placed>): map<NodeId, Hook>
    decreases |ps|
  {
    if |ps| == 0 then h else HookAll(HookOf(h, base, ps[0]), base + 1, ps[1..])
  }

  /** Each enemy of `ps` given its `on_go_die`. */
  function DyingAll(d: set<NodeId>, base: NodeId, ps: seq<Placed>): set<NodeId>
    decreases |ps|
  {
    if |ps| == 0 then d else DyingAll(DyingOf(d, base, ps[0]), base + 1, ps[1..])
  }

  /** Each bomb-dropper of `ps` made a bomber. */
  function BombersAll(b: map<NodeId, Bomber>, base: NodeId, ps: seq<Placed>): map<NodeId, Bomber>
    decreases |ps|
  {
    if |ps| == 0 then b else BombersAll(BombersOf(b, base, ps[0]), base + 1, ps[1..])
  }

  /** `self.player = create_player_at(x, y)` for every '@': the last one wins. */
  function PlayerAfter(p: NodeId, base: NodeId, ps: seq<Placed>): NodeId
    decreases |ps|
  {
    if |ps| == 0 then p else PlayerAfter(if ps[0].piece == PlayerPiece then base else p, base + 1, ps[1..])
  }

  /** The two kinds of piece whose nodes `parse` keeps a list of. */
  datatype Listed = Foes | Dummies

  /** Piece `p` goes on list `keep`. */
  predicate Keeps(keep: Listed, p: Piece) {
    match keep
    case Foes => p.FoePiece?
    case Dummies => p == Dummy
  }

  /** The identities, counted from `base`, of the pieces of `ps` on list `keep`. */
  function IdsWhere(base: NodeId, ps: seq<Placed>, keep: Listed): (r: seq<NodeId>)
    ensures forall i :: 0 <= i < |r| ==> base <= r[i] < base + |ps|
    ensures forall i, j :: 0 <= i < j < |r| ==> r[i] < r[j]
    decreases |ps|
  {
    if |ps| == 0 then []
    else (if Keeps(keep, ps[0].piece) then [base] else []) + IdsWhere(base + 1, ps[1..], keep)
  }

  /** The identities listed are exactly those of the pieces `keep` accepts. */
  lemma {:induction false} IdsWhereSpec(base: NodeId, ps: seq<Placed>, keep: Listed)
    ensures forall n :: n in IdsWhere(base, ps, keep) <==> base <= n < base + |ps| && Keeps(keep, ps[n - base].piece)
    decreases |ps|
  {
    if |ps| > 0 {
      IdsWhereSpec(base + 1, ps[1..], keep);
      forall i | 0 < i < |ps|
        ensures ps[i] == ps[1..][i - 1]
      {
      }
    }
  }

  /** The enemy nodes of `ps`. */
  function FoeIds(base: NodeId, ps: seq<Placed>): seq<NodeId> {
    IdsWhere(base, ps, Foes)
  }

  /** The dummy nodes of `ps`. */
  function DummyIds(base: NodeId, ps: seq<Placed>): seq<NodeId> {
    IdsWhere(base, ps, Dummies)
  }

  /**
   * `create_*_at(x, y)` for every piece of `ps` in order, the node of
   * `ps[i]` getting identity `w.next + i`: it joins its cell with the
   * piece's flags; a soft block drops an item when it dies, the player
   * loses the game when it dies and becomes `self.player`, every enemy
   * goes down through `on_go_die` and joins `self.enemies`, and the player
   * and the 'D' enemy can drop bombs.
   */
  function Build(w: World, ps: seq<Placed>): (r: World)
    ensures r.next == w.next + |ps|
  {
    w.(board := AddAll(w.board, w.next, ps), flags := FlagAll(w.flags, w.next, ps),
       hooks := HookAll(w.hooks, w.next, ps), dying := DyingAll(w.dying, w.next, ps),
       bombers := BombersAll(w.bombers, w.next, ps), enemies := w.enemies + FoeIds(w.next, ps),
       player := PlayerAfter(w.player, w.next, ps), next := w.next + |ps|)
  }

  /** Nodes tracked before `base` keep their cells while the pieces of `ps` are added. */
  lemma {:induction false} AddAllKeeps(b: Board, base: NodeId, ps: seq<Placed>, m: NodeId)
    requires m < base
    ensures m in AddAll(b, base, ps).at <==> m in b.at
    ensures m in b.at ==> AddAll(b, base, ps).at[m] == b.at[m]
    decreases |ps|
  {
    if |ps| > 0 {
      AddAllKeeps(Add(b, base, (ps[0].x, ps[0].y)), base + 1, ps[1..], m);
    }
  }

  /** The node of `ps[i]` sits in that piece's cell. */
  lemma {:induction false} AddAllPlaces(b: Board, base: NodeId, ps: seq<Placed>, i: nat)
    requires i < |ps|
    ensures base + i in AddAll(b, base, ps).at && AddAll(b, base, ps).at[base + i] == (ps[i].x, ps[i].y)
    decreases i
  {
    var b1 := Add(b, base, (ps[0].x, ps[0].y));
    if i == 0 {
      AddAllKeeps(b1, base + 1, ps[1..], base);
    } else {
      AddAllPlaces(b1, base + 1, ps[1..], i - 1);
      assert ps[1..][i - 1] == ps[i];
    }
  }

  /** Nodes before `base` keep their flags while the pieces of `ps` are flagged. */
  lemma {:induction false} FlagAllKeeps(t: FlagTable, base: NodeId, ps: seq<Placed>, m: NodeId)
    requires m < base
    ensures m in FlagAll(t, base, ps) <==> m in t
    ensures m in t ==> FlagAll(t, base, ps)[m] == t[m]
    decreases |ps|
  {
    if |ps| > 0 {
      FlagAllKeeps(Fresh(t, base, FlagsOf(ps[0].piece)), base + 1, ps[1..], m);
    }
  }

  /** The node of `ps[i]` has exactly its piece's flags. */
  lemma {:induction false} FlagAllGives(t: FlagTable, base: NodeId, ps: seq<Placed>, i: nat)
    requires i < |ps|
    ensures forall f :: HasFlag(FlagAll(t, base, ps), base + i, f) <==> f in FlagsOf(ps[i].piece)
    decreases i
  {
    var t1 := Fresh(t, base, FlagsOf(ps[0].piece));
    if i == 0 {
      FlagAllKeeps(t1, base + 1, ps[1..], base);
    } else {
      FlagAllGives(t1, base + 1, ps[1..], i - 1);
      assert ps[1..][i - 1] == ps[i];
    }
  }

  /** Exactly the enemies of `ps` go down through `on_go_die`; nodes before `base` are as they were. */
  lemma {:induction false} DyingAllSpec(d: set<NodeId>, base: NodeId, ps: seq<Placed>)
    ensures forall i :: 0 <= i < |ps| ==> (base + i in DyingAll(d, base, ps) <==> ps[i].piece.FoePiece?)
    ensures forall m: NodeId :: m < base ==> (m in DyingAll(d, base, ps) <==> m in d)
    decreases |ps|
  {
    if |ps| > 0 {
      DyingAllSpec(DyingOf(d, base, ps[0]), base + 1, ps[1..]);
      assert DyingAll(d, base, ps) == DyingAll(DyingOf(d, base, ps[0]), base + 1, ps[1..]);
      forall i | 1 <= i < |ps|
        ensures base + i in DyingAll(d, base, ps) <==> ps[i].piece.FoePiece?
      {
        assert ps[i] == ps[1..][i - 1] && base + i == (base + 1) + (i - 1);
      }
    }
  }

  /** Nodes before `base` keep their `on_die` while the pieces of `ps` get theirs. */
  lemma {:induction false} HookAllKeeps(h: map<NodeId, Hook>, base: NodeId, ps: seq<Placed>, m: NodeId)
    requires m < base
    ensures m in HookAll(h, base, ps) <==> m in h
    ensures m in h ==> HookAll(h, base, ps)[m] == h[m]
    decreases |ps|
  {
    if |ps| > 0 {
      HookAllKeeps(HookOf(h, base, ps[0]), base + 1, ps[1..], m);
    }
  }

  /** The node of `ps[i]` drops an item exactly when it is a soft block and loses the game exactly when it is the player. */
  lemma {:induction false} HookAllGives(h: map<NodeId, Hook>, base: NodeId, ps: seq<Placed>, i: nat)
    requires i < |ps|
    ensures ps[i].piece == SoftBlock <==>
              base + i in HookAll(h, base, ps) && HookAll(h, base, ps)[base + i] == DropItem(ps[i].x, ps[i].y)
    ensures ps[i].piece == PlayerPiece <==>
              base + i in HookAll(h, base, ps) && HookAll(h, base, ps)[base + i] == LoseGame
    decreases i
  {
    var h1 := HookOf(h, base, ps[0]);
    if i == 0 {
      HookAllKeeps(h1, base + 1, ps[1..], base);
    } else {
      HookAllGives(h1, base + 1, ps[1..], i - 1);
      assert ps[1..][i - 1] == ps[i];
    }
  }

  /** Without an '@', `self.player` stays as it was. */
  lemma {:induction false} PlayerAfterNone(p: NodeId, base: NodeId, ps: seq<Placed>)
    requires forall i :: 0 <= i < |ps| ==> ps[i].piece != PlayerPiece
    ensures PlayerAfter(p, base, ps) == p
    decreases |ps|
  {
    if |ps| > 0 {
      assert ps[0].piece != PlayerPiece;
      forall i | 0 <= i < |ps| - 1
        ensures ps[1..][i].piece != PlayerPiece
      {
        assert ps[1..][i] == ps[i + 1];
      }
      PlayerAfterNone(p, base + 1, ps[1..]);
    }
  }

  /** `self.player` ends up the node of the last '@'. */
  lemma {:induction false} PlayerAfterLast(p: NodeId, base: NodeId, ps: seq<Placed>, k: nat)
    requires k < |ps| && ps[k].piece == PlayerPiece
    requires forall j :: k < j < |ps| ==> ps[j].piece != PlayerPiece
    ensures PlayerAfter(p, base, ps) == base + k
    decreases k
  {
    var p1 := if ps[0].piece == PlayerPiece then base else p;
    forall j | k <= j < |ps| - 1
      ensures ps[1..][j] == ps[j + 1]
    {
    }
    if k == 0 {
      PlayerAfterNone(p1, base + 1, ps[1..]);
    } else {
      PlayerAfterLast(p1, base + 1, ps[1..], k - 1);
    }
  }

  /** `clear_dummy_obj`: every dummy leaves the map. */
  function ClearDummies(w: World, ds: seq<NodeId>): (r: World)
    ensures forall n :: n in r.board.at <==> n in w.board.at && n !in ds
    ensures forall n :: n in r.board.at ==> r.board.at[n] == w.board.at[n]
    ensures r == w.(board := r.board)
    decreases |ds|
  {
    if |ds| == 0 then w
    else ClearDummies(w.(board := Remove(w.board, ds[0])), ds[1..])
  }

  /**
   * The pieces of a scan created in order on `w`'s map, their nodes numbered
   * from `w.next`, and the dummies removed again.
   */
  function Load(w: World, ps: seq<Placed>): (r: World)
    ensures r.next == w.next + |ps|
  {
    ClearDummies(Build(w, ps), DummyIds(w.next, ps))
  }

  /** Pieces added under fresh identities keep the map's bookkeeping consistent, and every node older than the next. */
  lemma {:induction false} AddAllSound(b: Board, base: NodeId, ps: seq<Placed>)
    requires Consistent(b) && forall m :: m in b.at ==> m < base
    ensures Consistent(AddAll(b, base, ps))
    ensures forall m :: m in AddAll(b, base, ps).at ==> m < base + |ps|
    decreases |ps|
  {
    if |ps| > 0 {
      AddKeepsConsistent(b, base, (ps[0].x, ps[0].y));
      AddAllSound(Add(b, base, (ps[0].x, ps[0].y)), base + 1, ps[1..]);
    }
  }

  /** Removing the dummies keeps the map sound. */
  lemma {:induction false} ClearDummiesSound(w: World, ds: seq<NodeId>)
    ensures Sound(w) ==> Sound(ClearDummies(w, ds))
    decreases |ds|
  {
    if |ds| > 0 {
      RemoveSound(w, ds[0]);
      ClearDummiesSound(w.(board := Remove(w.board, ds[0])), ds[1..]);
    }
  }

  /** Loading a stage keeps the map sound. */
  lemma LoadSound(w: World, ps: seq<Placed>)
    ensures Sound(w) ==> Sound(Load(w, ps))
  {
    if Sound(w) {
      AddAllSound(w.board, w.next, ps);
      ClearDummiesSound(Build(w, ps), DummyIds(w.next, ps));
    }
  }

  /**
   * `parse` as written: `clear_dummy_obj` reads `self.dummies`, which
   * only `create_dummy_obj_at` sets, so a stage string without '.' raises
   * `AttributeError`.
   */
  function ParseAsWritten(w: World, text: string): (r: Option<World>)
    ensures r.Some? ==> Layout(text, w.board.cols, w.board.rows).Some?
    ensures r.Some? ==> |DummyIds(w.next, Layout(text, w.board.cols, w.board.rows).value)| > 0
  {
    var ps :- Layout(text, w.board.cols, w.board.rows);
    if |DummyIds(w.next, ps)| == 0 then None else Some(Load(w, ps))
  }

  /**
   * `parse` with `self.dummies` starting out empty: the pieces are created
   * on a map of `w`'s size and the dummies removed again. The soft blocks
   * `create_soft_blocks` scatters at random afterwards are not part of it.
   */
  function Parse(w: World, text: string): (r: Option<World>)
    ensures r.None? <==> Layout(text, w.board.cols, w.board.rows).None?
  {
    var ps :- Layout(text, w.board.cols, w.board.rows);
    Some(Load(w, ps))
  }

  /** The load only adds to the enemy list, the enemy letters' nodes in scan order, and exactly those go down through `on_go_die`. */
  lemma LoadEnemies(w: World, ps: seq<Placed>)
    ensures Load(w, ps).enemies == w.enemies + FoeIds(w.next, ps)
    ensures forall i :: 0 <= i < |ps| ==> (w.next + i in Load(w, ps).dying <==> ps[i].piece.FoePiece?)
  {
    DyingAllSpec(w.dying, w.next, ps);
  }

  /** Every created node but a dummy sits in its piece's cell, and no dummy is left on the map. */
  lemma LoadPlaces(w: World, ps: seq<Placed>, i: nat)
    requires i < |ps|
    ensures ps[i].piece != Dummy ==> w.next + i in Load(w, ps).board.at && Load(w, ps).board.at[w.next + i] == (ps[i].x, ps[i].y)
    ensures ps[i].piece == Dummy ==> w.next + i !in Load(w, ps).board.at
  {
    AddAllPlaces(w.board, w.next, ps, i);
    IdsWhereSpec(w.next, ps, Dummies);
    assert w.next + i in DummyIds(w.next, ps) <==> ps[i].piece == Dummy;
  }

  /** Every created node has exactly its piece's flags; nodes made before keep theirs. */
  lemma LoadFlags(w: World, ps: seq<Placed>, i: nat)
    requires i < |ps|
    ensures forall f :: Has(Load(w, ps), w.next + i, f) <==> f in FlagsOf(ps[i].piece)
  {
    FlagAllGives(w.flags, w.next, ps, i);
  }

  /** A soft block drops an item and the player loses the game when it dies, and no other created node has an `on_die`. */
  lemma LoadHooks(w: World, ps: seq<Placed>, i: nat)
    requires i < |ps|
    ensures ps[i].piece == SoftBlock <==>
              w.next + i in Load(w, ps).hooks && Load(w, ps).hooks[w.next + i] == DropItem(ps[i].x, ps[i].y)
    ensures ps[i].piece == PlayerPiece <==>
              w.next + i in Load(w, ps).hooks && Load(w, ps).hooks[w.next + i] == LoseGame
  {
    HookAllGives(w.hooks, w.next, ps, i);
  }

  /** `self.player` is the node of the last '@'. */
  lemma LoadPlayer(w: World, ps: seq<Placed>, k: nat)
    requires k < |ps| && ps[k].piece == PlayerPiece
    requires forall j :: k < j < |ps| ==> ps[j].piece != PlayerPiece
    ensures Load(w, ps).player == w.next + k
  {
    PlayerAfterLast(w.player, w.next, ps, k);
  }

  /** Nodes made before the load keep their flags. */
  lemma LoadKeepsFlags(w: World, ps: seq<Placed>, m: NodeId)
    requires m < w.next
    ensures forall f :: Has(Load(w, ps), m, f) <==> Has(w, m, f)
  {
    FlagAllKeeps(w.flags, w.next, ps, m);
  }

  /** The nodes the load adds to the enemy list are flagged as enemies. */
  lemma LoadedFoeFlagged(w: World, ps: seq<Placed>, m: NodeId)
    requires m in FoeIds(w.next, ps)
    ensures Has(Load(w, ps), m, Enemy)
  {
    IdsWhereSpec(w.next, ps, Foes);
    var i := m - w.next;
    assert ps[i].piece.FoePiece?;
    assert Enemy in FlagsOf(ps[i].piece);
    LoadFlags(w, ps, i);
  }

  /** Every enemy a load lists is flagged as one, given the list was so before: what the per-tick checks rely on. */
  lemma LoadedEnemiesFlagged(w: World, ps: seq<Placed>)
    requires forall m :: m in w.enemies ==> m < w.next && Has(w, m, Enemy)
    ensures forall m :: m in Load(w, ps).enemies ==> Has(Load(w, ps), m, Enemy)
  {
    LoadEnemies(w, ps);
    forall m | m in Load(w, ps).enemies
      ensures Has(Load(w, ps), m, Enemy)
    {
      if m in w.enemies {
        LoadKeepsFlags(w, ps, m);
      } else {
        LoadedFoeFlagged(w, ps, m);
      }
    }
  }

  /** No piece of `ps` is a dummy. */
  predicate NoDummy(ps: seq<Placed>) {
    forall i :: 0 <= i < |ps| ==> ps[i].piece != Dummy
  }

  /** The dummy list is empty exactly when no piece is a dummy. */
  lemma DummyIdsEmpty(base: NodeId, ps: seq<Placed>)
    ensures |DummyIds(base, ps)| == 0 <==> NoDummy(ps)
  {
    IdsWhereSpec(base, ps, Dummies);
    var ds := DummyIds(base, ps);
    if |ds| > 0 {
      assert ds[0] in ds;
      assert ps[ds[0] - base].piece == Dummy;
    } else {
      forall i | 0 <= i < |ps|
        ensures ps[i].piece != Dummy
      {
        assert base + i !in ds;
      }
    }
  }

  /** The parse as written fails exactly on a stage string that does not scan or has no '.'. */
  lemma ParseAsWrittenNeedsDummy(w: World, text: string)
    ensures ParseAsWritten(w, text).None? <==>
              Parse(w, text).None? || NoDummy(Layout(text, w.board.cols, w.board.rows).value)
  {
    var l := Layout(text, w.board.cols, w.board.rows);
    if l.Some? {
      DummyIdsEmpty(w.next, l.value);
    }
  }

  /** Where the parse as written succeeds, it agrees with the corrected one. */
  lemma ParseAsWrittenAgrees(w: World, text: string)
    requires ParseAsWritten(w, text).Some?
    ensures ParseAsWritten(w, text) == Parse(w, text)
  {
  }

  /** "x@" on a 2 by 1 map: a hard block and the player, no '.'. */
  lemma NoDummyLayout()
    ensures Layout("x@", 2, 1) == Some([Placed(HardBlock, 0, 0), Placed(PlayerPiece, 1, 0)])
  {
    var s := "x@";
    assert DropLeading(s) == s;
    assert DropTrailing(s) == s;
    assert Strip(s) == s;
    LinesSingle(s);
    assert ScanRow(s, 0, 2, 2) == Some([]);
    ScanRowPiece(s, 0, 1, 2, PlayerPiece, []);
    assert [Placed(PlayerPiece, 1, 0)] + [] == [Placed(PlayerPiece, 1, 0)];
    ScanRowPiece(s, 0, 0, 2, HardBlock, [Placed(PlayerPiece, 1, 0)]);
    var row := [Placed(HardBlock, 0, 0), Placed(PlayerPiece, 1, 0)];
    assert [Placed(HardBlock, 0, 0)] + [Placed(PlayerPiece, 1, 0)] == row;
    assert ScanRows([s], 1, 2, 1) == Some([]);
    assert row + [] == row;
    assert ScanRows([s], 0, 2, 1) == Some(row);
  }

  /** As written, the well-formed stage "x@" crashes the parse; with the dummy list started empty it loads. */
  lemma NoDummyCrashes(w: World)
    requires w.board.cols == 2 && w.board.rows == 1
    ensures ParseAsWritten(w, "x@").None?
    ensures Parse(w, "x@").Some? && Parse(w, "x@").value.player == w.next + 1
  {
    NoDummyRefused(w);
    NoDummyLoads(w);
  }

  lemma NoDummyRefused(w: World)
    requires w.board.cols == 2 && w.board.rows == 1
    ensures ParseAsWritten(w, "x@").None?
  {
    NoDummyLayout();
    ParseAsWrittenNeedsDummy(w, "x@");
  }

  lemma NoDummyLoads(w: World)
    requires w.board.cols == 2 && w.board.rows == 1
    ensures Parse(w, "x@").Some? && Parse(w, "x@").value.player == w.next + 1
  {
    NoDummyLayout();
    LoadPlayer(w, [Placed(HardBlock, 0, 0), Placed(PlayerPiece, 1, 0)], 1);
  }
}
