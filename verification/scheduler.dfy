/**
 * The per-node timing machinery of pnode.py: named actions run on every
 * tick, a queue of animations of which only the first one is advanced on
 * every paint, and the dirty flag that decides whether the node's static
 * `on_update` redraws it. The callbacks (`func`, `cleanup`, `on_update`)
 * are recorded as events instead of being run.
 */
module Scheduler {
  import opened Wrappers
  import Numeric

  /**
   * An action record (`action_list[name]`). The callback itself is not
   * modelled; `cleanup` says whether a cleanup callback was given.
   */
  datatype Action = Action(
    duration: real, delay: real, update: bool, loop: bool, cleanup: bool,
    elapsed: real, started: bool)

  /** An animation record (`animation_list[i]`): an action that always redraws. */
  datatype Anim = Anim(
    duration: real, delay: real, loop: bool, cleanup: bool,
    elapsed: real, started: bool)

  /** The timing state of one node. */
  datatype Timing = Timing(actions: map<string, Action>, needUpdate: bool, animations: seq<Anim>)

  /** What the node's callbacks are asked to do. */
  datatype Event =
    | Perform(name: string, phase: real)   // an action's `func(node, interval, phase)`
    | CleanupAction(name: string)          // an expired action's `cleanup()`
    | Animate(phase: real)                 // the first animation's `func(node, cr, phase)`
    | CleanupAnimation                     // a finished animation's `cleanup()`
    | Redraw                               // the static `on_update(cr)`

  /** A node with no action, no animation and a clean surface. */
  const Idle := Timing(map[], false, [])

  /** `add_action`: a fresh record under `name`, replacing any earlier one. */
  function AddAction(t: Timing, name: string, duration: real, delay: real, update: bool, loop: bool, cleanup: bool): (r: Timing)
    ensures name in r.actions
    ensures r.actions[name] == Action(duration, delay, update, loop, cleanup, 0.0, false)
    ensures forall n :: n != name ==> (n in r.actions <==> n in t.actions)
    ensures forall n :: n != name && n in t.actions ==> r.actions[n] == t.actions[n]
    ensures r.needUpdate == t.needUpdate && r.animations == t.animations
  {
    t.(actions := t.actions[name := Action(duration, delay, update, loop, cleanup, 0.0, false)])
  }

  /** `remove_action`: drops `name` if present; a missing name is no error. */
  function RemoveAction(t: Timing, name: string): (r: Timing)
    ensures name !in r.actions
    ensures forall n :: n != name ==> (n in r.actions <==> n in t.actions)
    ensures forall n :: n in r.actions ==> r.actions[n] == t.actions[n]
    ensures r.needUpdate == t.needUpdate && r.animations == t.animations
    ensures name !in t.actions ==> r == t
  {
    if name in t.actions then t.(actions := t.actions - {name}) else t
  }

  /** `reset_actions`: no action left, and the surface is no longer dirty. */
  function ResetActions(t: Timing): (r: Timing)
    ensures |r.actions| == 0 && !r.needUpdate && r.animations == t.animations
  {
    t.(actions := map[], needUpdate := false)
  }

  /** `repaint`: mark the surface dirty. */
  function Repaint(t: Timing): (r: Timing)
    ensures r.needUpdate && r.actions == t.actions && r.animations == t.animations
  {
    t.(needUpdate := true)
  }

  /** Removing an action just added leaves the node as if it had only been removed. */
  lemma RemoveAfterAdd(t: Timing, name: string, duration: real, delay: real, update: bool, loop: bool, cleanup: bool)
    ensures RemoveAction(AddAction(t, name, duration, delay, update, loop, cleanup), name) == RemoveAction(t, name)
  {
    var a := AddAction(t, name, duration, delay, update, loop, cleanup);
    assert RemoveAction(a, name).actions == RemoveAction(t, name).actions;
  }

  /** Adding under a name twice keeps only the second record, restarted. */
  lemma AddReplaces(t: Timing, name: string, d1: real, w1: real, u1: bool, l1: bool, c1: bool,
                    d2: real, w2: real, u2: bool, l2: bool, c2: bool)
    ensures AddAction(AddAction(t, name, d1, w1, u1, l1, c1), name, d2, w2, u2, l2, c2)
         == AddAction(t, name, d2, w2, u2, l2, c2)
  {
    var a := AddAction(AddAction(t, name, d1, w1, u1, l1, c1), name, d2, w2, u2, l2, c2);
    assert a.actions == AddAction(t, name, d2, w2, u2, l2, c2).actions;
  }

  /** The phase handed to an action: the elapsed fraction of its duration, or 0 without a duration. */
  function Phase(elapsed: real, duration: real): real {
    if duration <= 0.0 then 0.0 else elapsed / duration
  }

  /** The outcome of one tick for one action. */
  datatype Step = Wait(a: Action) | Run(a: Action, phase: real) | Expire

  /**
   * One action's part of `do_tick`. A waiting action counts its delay down
   * and, on the tick the delay reaches zero, only starts. A started action
   * adds the interval; past its duration a looping action wraps around by
   * one duration and any other expires without running.
   */
  function TickAction(a: Action, interval: real): (s: Step)
    ensures !a.started ==> s == Wait(a.(delay := a.delay - interval, started := a.delay - interval <= 0.0))
    ensures s.Expire? <==> a.started && !a.loop && a.elapsed + interval > a.duration
    ensures s.Run? <==> a.started && (a.loop || a.elapsed + interval <= a.duration)
    ensures s.Run? ==> s.a.started && s.a.delay == a.delay && s.phase == Phase(s.a.elapsed, s.a.duration) &&
                       s.a == a.(elapsed := s.a.elapsed) &&
                       s.a.elapsed == (if a.elapsed + interval > a.duration then a.elapsed + interval - a.duration
                                       else a.elapsed + interval)
  {
    if !a.started then
      var w := a.delay - interval;
      Wait(a.(delay := w, started := w <= 0.0))
    else
      var e := a.elapsed + interval;
      if e > a.duration && !a.loop then Expire
      else
        var e2 := if e > a.duration then e - a.duration else e;
        Run(a.(elapsed := e2), Phase(e2, a.duration))
  }

  /**
   * A started action whose elapsed time lies within its duration; with a
   * tick no longer than the duration this stays so, and its phase lies in [0, 1].
   */
  predicate InPeriod(a: Action) {
    a.duration > 0.0 && 0.0 <= a.elapsed <= a.duration
  }

  lemma TickInPeriod(a: Action, interval: real)
    requires a.started && InPeriod(a) && 0.0 <= interval <= a.duration
    ensures var s := TickAction(a, interval);
            s.Run? ==> InPeriod(s.a) && 0.0 <= s.phase <= 1.0
  {
    var s := TickAction(a, interval);
    if s.Run? {
      Numeric.UnitDiv(s.a.elapsed, s.a.duration);
    }
  }

  /** A looping action never expires, and a started action never waits again. */
  lemma LoopKeepsRunning(a: Action, interval: real)
    requires a.started
    ensures a.loop ==> TickAction(a, interval).Run?
    ensures !TickAction(a, interval).Wait?
  {
  }

  /** The outcome of `k` more ticks: the record as it stands, or `Expire` once it has expired. */
  function TickMany(a: Action, interval: real, k: nat): (s: Step)
    ensures k == 0 ==> s == Wait(a) || s == Run(a, 0.0)
    decreases k
  {
    if k == 0 then (if a.started then Run(a, 0.0) else Wait(a))
    else match TickAction(a, interval)
      case Expire => Expire
      case Wait(b) => TickMany(b, interval, k - 1)
      case Run(b, _) => TickMany(b, interval, k - 1)
  }

  /**
   * A started, non-looping action expires: after `k` ticks of a positive
   * interval it is gone once `k` intervals exceed the time it has left.
   */
  lemma {:induction false} NonLoopExpires(a: Action, interval: real, k: nat)
    requires a.started && !a.loop && interval > 0.0
    requires k > 0 && k as real * interval > a.duration - a.elapsed
    ensures TickMany(a, interval, k).Expire?
    decreases k
  {
    match TickAction(a, interval)
    case Expire =>
    case Run(b, _) =>
      assert b.elapsed == a.elapsed + interval;
      assert (k - 1) as real * interval == k as real * interval - interval;
      NonLoopExpires(b, interval, k - 1);
    case Wait(_) =>
      assert false;
  }

  /** The actions that survive a tick, advanced. */
  function Advanced(acts: map<string, Action>, interval: real): (r: map<string, Action>)
    ensures forall n :: n in r <==> n in acts && !TickAction(acts[n], interval).Expire?
    ensures forall n :: n in r ==> r[n] == TickAction(acts[n], interval).a
  {
    map n | n in acts && !TickAction(acts[n], interval).Expire? :: TickAction(acts[n], interval).a
  }

  /** The callbacks a tick triggers: a `func` per running action and a `cleanup` per expiring one. */
  function TickEvents(acts: map<string, Action>, interval: real): (ev: set<Event>)
    ensures forall n, p :: Perform(n, p) in ev <==> n in acts && TickAction(acts[n], interval).Run? && TickAction(acts[n], interval).phase == p
    ensures forall n :: CleanupAction(n) in ev <==> n in acts && TickAction(acts[n], interval).Expire? && acts[n].cleanup
    ensures forall e :: e in ev ==> e.Perform? || e.CleanupAction?
  {
    (set n | n in acts && TickAction(acts[n], interval).Run? :: Perform(n, TickAction(acts[n], interval).phase)) +
    (set n | n in acts && TickAction(acts[n], interval).Expire? && acts[n].cleanup :: CleanupAction(n))
  }

  /** Whether some action that runs this tick asks for a redraw. */
  predicate RunsUpdating(acts: map<string, Action>, interval: real) {
    exists n :: n in acts && TickAction(acts[n], interval).Run? && acts[n].update
  }

  /**
   * `do_tick` over the actions (after the node's own `on_tick`): every
   * action is advanced once, independently of the others, which is what
   * iterating over a copy of the table gives; expired actions leave the
   * table; a running action with `update` makes the surface dirty.
   */
  function DoTick(t: Timing, interval: real): (r: (Timing, set<Event>))
    ensures r.0.actions == Advanced(t.actions, interval)
    ensures r.1 == TickEvents(t.actions, interval)
    ensures r.0.needUpdate <==> t.needUpdate || RunsUpdating(t.actions, interval)
    ensures r.0.animations == t.animations
  {
    (Timing(Advanced(t.actions, interval), t.needUpdate || RunsUpdating(t.actions, interval), t.animations),
     TickEvents(t.actions, interval))
  }

  /** A tick keeps every looping and every waiting action, and removes no name it did not hold. */
  lemma DoTickKeeps(t: Timing, interval: real, n: string)
    requires n in t.actions && (t.actions[n].loop || !t.actions[n].started)
    ensures n in DoTick(t, interval).0.actions
  {
  }

  /** The first tick after `add_action` with a delay no longer than the interval starts the action and runs nothing. */
  lemma FirstTickOnlyStarts(t: Timing, name: string, duration: real, delay: real, update: bool, loop: bool, cleanup: bool, interval: real)
    requires delay <= interval
    ensures var r := DoTick(AddAction(t, name, duration, delay, update, loop, cleanup), interval);
            name in r.0.actions && r.0.actions[name].started && r.0.actions[name].elapsed == 0.0 &&
            (forall p :: Perform(name, p) !in r.1)
  {
  }

  /** An empty table ticks to itself and asks for nothing. */
  lemma IdleTick(interval: real)
    ensures DoTick(Idle, interval) == (Idle, {})
  {
    assert Advanced(map[], interval) == map[];
    assert TickEvents(map[], interval) == {};
  }

  /** `set_animation`: with `pend` the new animation queues up last, otherwise it replaces the queue. */
  function SetAnimation(t: Timing, duration: real, delay: real, loop: bool, cleanup: bool, pend: bool): (r: Timing)
    ensures pend ==> r.animations == t.animations + [Anim(duration, delay, loop, cleanup, 0.0, false)]
    ensures !pend ==> r.animations == [Anim(duration, delay, loop, cleanup, 0.0, false)]
    ensures r.actions == t.actions && r.needUpdate == t.needUpdate
  {
    var a := Anim(duration, delay, loop, cleanup, 0.0, false);
    if pend then t.(animations := t.animations + [a]) else t.(animations := [a])
  }

  /** `reset_animations`. */
  function ResetAnimations(t: Timing): (r: Timing)
    ensures r.animations == [] && r.actions == t.actions && r.needUpdate == t.needUpdate
  {
    t.(animations := [])
  }

  /** The outcome of one paint for the first animation. */
  datatype AnimStep = Pending(a: Anim) | Drawn(a: Anim, phase: real) | Finished

  /**
   * `_do_update` on the first animation: the same timing as an action,
   * except that the phase is divided by the duration unguarded. `None` is
   * the `ZeroDivisionError` a zero duration raises whenever the animation
   * would be drawn.
   */
  function StepAnim(a: Anim, interval: real): (r: Option<AnimStep>)
    ensures r.None? <==> a.started && a.duration == 0.0 && (a.loop || a.elapsed + interval <= 0.0)
    ensures !a.started ==> r == Some(Pending(a.(delay := a.delay - interval, started := a.delay - interval <= 0.0)))
    ensures r == Some(Finished) <==> a.started && !a.loop && a.elapsed + interval > a.duration
    ensures r.Some? && r.value.Drawn? ==> r.value.a.started && r.value.a == a.(elapsed := r.value.a.elapsed) &&
                                          r.value.phase * a.duration == r.value.a.elapsed
  {
    if !a.started then
      var w := a.delay - interval;
      Some(Pending(a.(delay := w, started := w <= 0.0)))
    else
      var e := a.elapsed + interval;
      if e > a.duration && !a.loop then Some(Finished)
      else
        var e2 := if e > a.duration then e - a.duration else e;
        if a.duration == 0.0 then None
        else
          Numeric.DivMul(e2, a.duration);
          Some(Drawn(a.(elapsed := e2), e2 / a.duration))
  }

  /** With a positive duration and a tick no longer than it, the animation never fails and is drawn at a phase in [0, 1]. */
  lemma StepAnimInPeriod(a: Anim, interval: real)
    requires a.started && a.duration > 0.0 && 0.0 <= a.elapsed <= a.duration && 0.0 <= interval <= a.duration
    ensures var r := StepAnim(a, interval);
            r.Some? && (r.value.Drawn? ==> 0.0 <= r.value.phase <= 1.0 && 0.0 <= r.value.a.elapsed <= a.duration)
  {
    var r := StepAnim(a, interval);
    if r.value.Drawn? {
      Numeric.UnitDiv(r.value.a.elapsed, a.duration);
    }
  }

  /** A looping animation of zero duration fails on its first paint after starting. */
  lemma ZeroDurationLoopFails(a: Anim, interval: real)
    requires a.started && a.duration == 0.0 && a.loop
    ensures StepAnim(a, interval).None?
  {
  }

  /**
   * `do_update`: the first animation (if any) is advanced and may draw the
   * node; the static `on_update` redraws it only when the surface is dirty
   * and no animation drew it, and only then is the dirty flag cleared.
   * `None` is the animation's `ZeroDivisionError`.
   */
  function DoUpdate(t: Timing, interval: real): (r: Option<(Timing, seq<Event>)>)
    ensures |t.animations| == 0 ==> r == Some((t.(needUpdate := false), if t.needUpdate then [Redraw] else []))
    ensures r.Some? ==> r.value.0.actions == t.actions
    ensures r.Some? ==> (Redraw in r.value.1 <==> t.needUpdate && forall p :: Animate(p) !in r.value.1)
    ensures r.Some? ==> (r.value.0.needUpdate <==> t.needUpdate && exists p :: Animate(p) in r.value.1)
    ensures r.None? <==> |t.animations| > 0 && StepAnim(t.animations[0], interval).None?
    ensures r.Some? && |t.animations| > 0 ==>
              var s := StepAnim(t.animations[0], interval).value;
              r.value.0.animations == if s.Finished? then t.animations[1..] else [s.a] + t.animations[1..]
  {
    if |t.animations| == 0 then
      Some((t.(needUpdate := false), if t.needUpdate then [Redraw] else []))
    else
      match StepAnim(t.animations[0], interval)
      case None => None
      case Some(Finished) =>
        var ev := (if t.animations[0].cleanup then [CleanupAnimation] else []) + (if t.needUpdate then [Redraw] else []);
        Some((t.(animations := t.animations[1..], needUpdate := false), ev))
      case Some(Pending(a)) =>
        Some((t.(animations := [a] + t.animations[1..], needUpdate := false), if t.needUpdate then [Redraw] else []))
      case Some(Drawn(a, p)) =>
        Some((t.(animations := [a] + t.animations[1..]), [Animate(p)]))
  }

  /** Only the first animation advances: the ones queued behind it are untouched. */
  lemma QueueBehindUntouched(t: Timing, interval: real)
    requires |t.animations| > 0
    ensures var r := DoUpdate(t, interval);
            r.Some? ==> r.value.0.animations == t.animations[1..] ||
                        (|r.value.0.animations| == |t.animations| && r.value.0.animations[1..] == t.animations[1..])
  {
  }
}
