/**
 * The bomb of the bomberman prototype (bomberman/objects.py): a fuse that
 * burns down on every tick once counting has started, and explodes — then
 * destroys itself — the first time it drops below zero. An endless bomb
 * never burns.
 */
module ProtoBomb {
  import opened Wrappers
  import Numeric
  import ProtoSched

  /** A bomb: remaining fuse, blast power, whether it is endless, and whether it is counting. */
  datatype Bomb = Bomb(count: real, power: int, endless: bool, counting: bool)

  /** The two callbacks a bomb invokes when it goes off, in the order it invokes them. */
  datatype BombEvent = Explode | Destroy

  /**
   * `Bomb.__init__`: the fuse as given, the power truncated by `int()`,
   * `is endless` defaulting to false, and not counting yet.
   */
  function NewBomb(count: real, power: real, endless: Option<bool>): (b: Bomb)
    ensures b.count == count && !b.counting
    ensures b.endless <==> endless == Some(true)
    ensures power >= 0.0 ==> 0 <= b.power && b.power as real <= power < b.power as real + 1.0
    ensures power <= 0.0 ==> b.power <= 0 && b.power as real - 1.0 < power
  {
    Bomb(count, Numeric.Trunc(power), if endless.Some? then endless.value else false, false)
  }

  /** The period of the pulsing animation that runs while a bomb counts down. */
  const CountPeriod: real := 1.5

  /**
   * `start_counting`: the bomb counts, and the looping `count` animation
   * (no delay, period 1.5) is added to its node.
   */
  function StartCounting(b: Bomb, n: ProtoSched.PNode): (r: (Bomb, ProtoSched.PNode))
    ensures r.0 == b.(counting := true)
    ensures "count" in r.1.anims && r.1.anims["count"].loop && r.1.anims["count"].period == CountPeriod
    ensures r.1.actions == n.actions
  {
    (b.(counting := true), ProtoSched.AddAnimation(n, "count", 0.0, CountPeriod, true))
  }

  /**
   * `on_tick`: while counting and not endless the fuse burns by the
   * interval; when it drops below zero the bomb stops counting and goes
   * off, which calls the explode callback and then the destroy callback.
   */
  function OnTick(b: Bomb, interval: real): (r: (Bomb, seq<BombEvent>))
    ensures r.0.power == b.power && r.0.endless == b.endless
    ensures !b.counting || b.endless ==> r == (b, [])
    ensures b.counting && !b.endless ==> r.0.count == b.count - interval
    ensures r.1 == [] || r.1 == [Explode, Destroy]
    ensures r.1 == [Explode, Destroy] <==> b.counting && !b.endless && b.count - interval < 0.0
    ensures r.1 != [] ==> !r.0.counting
  {
    if b.counting && !b.endless then
      var burnt := b.(count := b.count - interval);
      if burnt.count < 0.0 then (burnt.(counting := false), [Explode, Destroy])
      else (burnt, [])
    else (b, [])
  }

  /** The bomb after a run of ticks, and every event it raised along the way. */
  function Run(b: Bomb, intervals: seq<real>): (r: (Bomb, seq<BombEvent>))
    decreases |intervals|
  {
    if |intervals| == 0 then (b, [])
    else
      var t := OnTick(b, intervals[0]);
      var rest := Run(t.0, intervals[1..]);
      (rest.0, t.1 + rest.1)
  }

  /** The count of `e` in `s`, by recursion. */
  function CountOf(s: seq<BombEvent>, e: BombEvent): (k: nat)
    ensures k <= |s|
  {
    if |s| == 0 then 0 else (if s[0] == e then 1 else 0) + CountOf(s[1..], e)
  }

  /** Counting is additive over concatenation. */
  lemma {:induction false} CountOfConcat(a: seq<BombEvent>, b: seq<BombEvent>, e: BombEvent)
    ensures CountOf(a + b, e) == CountOf(a, e) + CountOf(b, e)
    decreases |a|
  {
    if |a| == 0 {
      assert a + b == b;
    } else {
      assert (a + b)[0] == a[0];
      assert (a + b)[1..] == a[1..] + b;
      CountOfConcat(a[1..], b, e);
    }
  }

  /** A bomb that is not counting stays put: no tick changes it, and it never goes off. */
  lemma {:induction false} IdleBombInert(b: Bomb, intervals: seq<real>)
    requires !b.counting
    ensures Run(b, intervals) == (b, [])
    decreases |intervals|
  {
    if |intervals| > 0 {
      assert OnTick(b, intervals[0]) == (b, []);
      IdleBombInert(b, intervals[1..]);
      assert [] + Run(b, intervals[1..]).1 == [];
    }
  }

  /** An endless bomb keeps its fuse whatever the ticks, and never goes off. */
  lemma {:induction false} EndlessNeverExplodes(b: Bomb, intervals: seq<real>)
    requires b.endless
    ensures Run(b, intervals) == (b, [])
    decreases |intervals|
  {
    if |intervals| > 0 {
      assert OnTick(b, intervals[0]) == (b, []);
      EndlessNeverExplodes(b, intervals[1..]);
      assert [] + Run(b, intervals[1..]).1 == [];
    }
  }

  /**
   * However many ticks pass, a bomb explodes at most once per
   * `start_counting`, and it is destroyed exactly as often as it explodes.
   */
  lemma {:induction false} ExplodesAtMostOnce(b: Bomb, intervals: seq<real>)
    ensures var r := Run(b, intervals);
            CountOf(r.1, Explode) <= 1 && CountOf(r.1, Destroy) == CountOf(r.1, Explode)
    ensures !b.counting ==> Run(b, intervals).1 == []
    decreases |intervals|
  {
    if |intervals| == 0 {
    } else if !b.counting {
      IdleBombInert(b, intervals);
    } else {
      var t := OnTick(b, intervals[0]);
      var rest := Run(t.0, intervals[1..]);
      ExplodesAtMostOnce(t.0, intervals[1..]);
      CountOfConcat(t.1, rest.1, Explode);
      CountOfConcat(t.1, rest.1, Destroy);
      if t.1 != [] {
        assert rest.1 == [];
      }
    }
  }

  /**
   * A counting, finite bomb ticked at least once, for intervals whose
   * total exceeds its fuse, has gone off by the end.
   */
  lemma {:induction false} LongEnoughExplodes(b: Bomb, intervals: seq<real>)
    requires b.counting && !b.endless
    requires |intervals| > 0 && Sum(intervals) > b.count
    ensures CountOf(Run(b, intervals).1, Explode) == 1
    decreases |intervals|
  {
    var t := OnTick(b, intervals[0]);
    var rest := Run(t.0, intervals[1..]);
    CountOfConcat(t.1, rest.1, Explode);
    if t.1 == [] {
      LongEnoughExplodes(t.0, intervals[1..]);
    } else {
      ExplodesAtMostOnce(t.0, intervals[1..]);
    }
  }

  /** The total of a run of intervals. */
  function Sum(s: seq<real>): real {
    if |s| == 0 then 0.0 else s[0] + Sum(s[1..])
  }
}
