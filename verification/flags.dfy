/**
 * Capability flags attached to stage objects (stagecontroller.py).
 * The source keeps them as bits of an integer attribute `stageobj_flags`;
 * since every constant is a distinct single bit (`SingleBit`, `BitsDisjoint`),
 * such a word is exactly the set of capabilities whose bit is on, and that
 * set is what the model stores.
 * A node that was never flagged has no entry in the table.
 */
module StageFlags {
  import opened Nodes

  /** The twelve capabilities, in declaration order. */
  datatype Flag =
    | Block | Character | FireBlocking | Breakable | Enemy | Player
    | Bomb | Fire | Dead | Item | BombEater | Flying

  /** `stageobj_flags` of every node that has the attribute. */
  type FlagTable = map<NodeId, set<Flag>>

  /** Bit position of each flag: `BLOCK = 1 << 0` up to `FLYING = 1 << 11`. */
  function Index(f: Flag): (i: nat)
    ensures i < 12
  {
    match f
    case Block => 0
    case Character => 1
    case FireBlocking => 2
    case Breakable => 3
    case Enemy => 4
    case Player => 5
    case Bomb => 6
    case Fire => 7
    case Dead => 8
    case Item => 9
    case BombEater => 10
    case Flying => 11
  }

  /** The integer value of a flag constant. */
  function Bit(f: Flag): bv16 {
    match f
    case Block => 0x1
    case Character => 0x2
    case FireBlocking => 0x4
    case Breakable => 0x8
    case Enemy => 0x10
    case Player => 0x20
    case Bomb => 0x40
    case Fire => 0x80
    case Dead => 0x100
    case Item => 0x200
    case BombEater => 0x400
    case Flying => 0x800
  }

  /** Every constant is a non-zero single bit at its own position. */
  lemma SingleBit(f: Flag)
    ensures Bit(f) == (1 as bv16) << Index(f)
    ensures Bit(f) != 0 && Bit(f) & (Bit(f) - 1) == 0
  {
  }

  /** Two different flags share no bit. */
  lemma BitsDisjoint(f: Flag, g: Flag)
    requires f != g
    ensures Bit(f) & Bit(g) == 0
  {
  }

  /** `stageobj_has_flag`: false for a node that was never flagged. */
  predicate HasFlag(t: FlagTable, n: NodeId, f: Flag) {
    n in t && f in t[n]
  }

  /** `stageobj(flag, node)`: ORs the flag into the node's flags, creating them when absent. */
  function StageObj(t: FlagTable, n: NodeId, f: Flag): (r: FlagTable)
    ensures HasFlag(r, n, f)
    ensures forall g :: g != f ==> (HasFlag(r, n, g) <==> HasFlag(t, n, g))
    ensures forall m :: m != n ==> (m in r <==> m in t) && (m in t ==> r[m] == t[m])
  {
    t[n := (if n in t then t[n] else {}) + {f}]
  }

  /** A node flagged with exactly the given capabilities, as the `make_*` helpers do on creation. */
  function Fresh(t: FlagTable, n: NodeId, fs: seq<Flag>): (r: FlagTable)
    ensures forall g :: HasFlag(r, n, g) <==> g in fs
    ensures forall m :: m != n ==> (m in r <==> m in t) && (m in t ==> r[m] == t[m])
  {
    t[n := set f | f in fs]
  }

  /**
   * The query's side effect (`stageobj_flags = 0` on a node without the
   * attribute) is unobservable: the node still has no capability, and a later
   * `stageobj` yields the same flags as on the untouched node.
   */
  lemma {:induction false} QuerySideEffectHarmless(t: FlagTable, n: NodeId, f: Flag, g: Flag)
    requires n !in t
    ensures !HasFlag(t[n := {}], n, g)
    ensures StageObj(t[n := {}], n, f) == StageObj(t, n, f)
  {
  }
}
