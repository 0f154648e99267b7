/**
 * The key tracking of pnode.py's `Game`: key events change a live set of
 * held keys, each tick ends by copying it into a snapshot, and the edge
 * queries compare the two. `key_up` is true for a key pressed since the
 * last snapshot and `key_down` for one released since then: the reverse of
 * what their names suggest, reproduced as written.
 */
module Keyboard {

  /** A key code (`gdk` key value). */
  type Key = int

  /** `__keymap` (the snapshot taken at the end of the last tick) and `__next_keymap` (the live set). */
  datatype Keys = Keys(snapshot: set<Key>, live: set<Key>)

  /** A freshly created game: no key held. */
  const NoKeys := Keys({}, {})

  /** `key_up`: held now but not at the last snapshot. */
  predicate KeyUp(s: Keys, k: Key) {
    k !in s.snapshot && k in s.live
  }

  /** `key_down`: held at the last snapshot but not now. */
  predicate KeyDown(s: Keys, k: Key) {
    k in s.snapshot && k !in s.live
  }

  /** `do_key_press`: the key joins the live set. */
  function Press(s: Keys, k: Key): (r: Keys)
    ensures r.live == s.live + {k} && r.snapshot == s.snapshot
  {
    s.(live := s.live + {k})
  }

  /** `do_key_release`: the key leaves the live set; releasing a key not held changes nothing. */
  function Release(s: Keys, k: Key): (r: Keys)
    ensures r.live == s.live - {k} && r.snapshot == s.snapshot
    ensures k !in s.live ==> r == s
  {
    if k in s.live then s.(live := s.live - {k}) else s
  }

  /** The end of `do_timeout`: the snapshot becomes a copy of the live set. */
  function EndTick(s: Keys): (r: Keys)
    ensures r.snapshot == s.live && r.live == s.live
  {
    Keys(s.live, s.live)
  }

  /** A key is never both up and down. */
  lemma UpDownExclusive(s: Keys, k: Key)
    ensures !(KeyUp(s, k) && KeyDown(s, k))
  {
  }

  /** After a tick and before any key event, no key has an edge. */
  lemma NoEdgeAfterTick(s: Keys, k: Key)
    ensures !KeyUp(EndTick(s), k) && !KeyDown(EndTick(s), k)
  {
  }

  /** Pressing a key not held at the last snapshot makes `key_up` true for it, and `key_down` false. */
  lemma PressIsKeyUp(s: Keys, k: Key)
    requires k !in s.snapshot
    ensures KeyUp(Press(s, k), k) && !KeyDown(Press(s, k), k)
  {
  }

  /** Releasing a key held at the last snapshot makes `key_down` true for it. */
  lemma ReleaseIsKeyDown(s: Keys, k: Key)
    requires k in s.snapshot
    ensures KeyDown(Release(s, k), k) && !KeyUp(Release(s, k), k)
  {
  }

  /** A key pressed and released between two ticks leaves no edge: the tick never sees it. */
  lemma TapBetweenTicks(s: Keys, k: Key)
    requires k !in s.live
    ensures var r := Release(Press(EndTick(s), k), k);
            !KeyUp(r, k) && !KeyDown(r, k) && r == EndTick(s)
  {
  }

  /** An edge lasts exactly one tick: the tick after a press sees `key_up`, the next one no longer does. */
  lemma EdgeLastsOneTick(s: Keys, k: Key)
    requires k !in s.live
    ensures var p := Press(EndTick(s), k);
            KeyUp(p, k) && !KeyUp(EndTick(p), k) && k in EndTick(p).snapshot
  {
  }

  /** Key events on other keys do not change a key's edges. */
  lemma OtherKeysIndependent(s: Keys, k: Key, j: Key)
    requires j != k
    ensures KeyUp(Press(s, j), k) == KeyUp(s, k) && KeyDown(Press(s, j), k) == KeyDown(s, k)
    ensures KeyUp(Release(s, j), k) == KeyUp(s, k) && KeyDown(Release(s, j), k) == KeyDown(s, k)
  {
  }
}
