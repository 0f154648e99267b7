/**
 * The scheduler of the prototype bomberman/pnode.py. Actions and
 * animations are kept by name; removing one only queues its name, and the
 * queued names are deleted in one go after the node's actions (or
 * animations) have been processed. Callbacks are recorded as events.
 */
module ProtoSched {
  import opened Wrappers
  import Numeric

  /** An action record: whether it loops, whether it redraws, and whether it has run. */
  datatype PAction = PAction(loop: bool, update: bool, done: bool)

  /** An animation record. */
  datatype PAnim = PAnim(delay: real, period: real, loop: bool, started: bool, done: bool, elapsed: real)

  /**
   * A prototype node's timing state: the two tables, the two queues of
   * names waiting for removal, and the `animated` flag.
   */
  datatype PNode = PNode(
    actions: map<string, PAction>, actionRemovals: set<string>,
    anims: map<string, PAnim>, animRemovals: set<string>,
    animated: bool)

  /** A fresh node: nothing scheduled. */
  const Empty := PNode(map[], {}, map[], {}, false)

  /** What the node's callbacks are asked to do. */
  datatype PEvent = CallAction(name: string) | CallAnim(name: string, phase: real) | OnUpdate

  /** Only names present in a table are ever queued for its removal. */
  predicate Consistent(n: PNode) {
    n.actionRemovals <= n.actions.Keys && n.animRemovals <= n.anims.Keys
  }

  /** `add_action`: a fresh, not yet run record under `name`, replacing any earlier one. */
  function AddAction(n: PNode, name: string, loop: bool, update: bool): (r: PNode)
    ensures r.actions == n.actions[name := PAction(loop, update, false)]
    ensures r.actionRemovals == n.actionRemovals && r.anims == n.anims && r.animRemovals == n.animRemovals
    ensures Consistent(n) ==> Consistent(r)
  {
    n.(actions := n.actions[name := PAction(loop, update, false)])
  }

  /** `remove_action`: queues `name` when it is present; the table itself is not touched yet. */
  function RemoveAction(n: PNode, name: string): (r: PNode)
    ensures r.actions == n.actions
    ensures r.actionRemovals == if name in n.actions then n.actionRemovals + {name} else n.actionRemovals
    ensures r.anims == n.anims && r.animRemovals == n.animRemovals
    ensures Consistent(n) ==> Consistent(r)
  {
    if name in n.actions then n.(actionRemovals := n.actionRemovals + {name}) else n
  }

  /** `__remove_actions`: every queued name is deleted and the queue emptied. */
  function FlushActions(n: PNode): (r: PNode)
    ensures r.actions.Keys == n.actions.Keys - n.actionRemovals
    ensures forall k :: k in r.actions ==> r.actions[k] == n.actions[k]
    ensures r.actionRemovals == {} && r.anims == n.anims && r.animRemovals == n.animRemovals
    ensures Consistent(n) ==> Consistent(r)
  {
    n.(actions := n.actions - n.actionRemovals, actionRemovals := {})
  }

  /** `add_animation`: a fresh record (not started, not done, nothing elapsed) under `name`. */
  function AddAnimation(n: PNode, name: string, delay: real, period: real, loop: bool): (r: PNode)
    ensures r.anims == n.anims[name := PAnim(delay, period, loop, false, false, 0.0)]
    ensures r.animRemovals == n.animRemovals && r.actions == n.actions && r.actionRemovals == n.actionRemovals
    ensures Consistent(n) ==> Consistent(r)
  {
    n.(anims := n.anims[name := PAnim(delay, period, loop, false, false, 0.0)])
  }

  /** `remove_animation`: queues `name` when it is present. */
  function RemoveAnimation(n: PNode, name: string): (r: PNode)
    ensures r.anims == n.anims
    ensures r.animRemovals == if name in n.anims then n.animRemovals + {name} else n.animRemovals
    ensures r.actions == n.actions && r.actionRemovals == n.actionRemovals
    ensures Consistent(n) ==> Consistent(r)
  {
    if name in n.anims then n.(animRemovals := n.animRemovals + {name}) else n
  }

  /** `__remove_animations`. */
  function FlushAnimations(n: PNode): (r: PNode)
    ensures r.anims.Keys == n.anims.Keys - n.animRemovals
    ensures forall k :: k in r.anims ==> r.anims[k] == n.anims[k]
    ensures r.animRemovals == {} && r.actions == n.actions && r.actionRemovals == n.actionRemovals
    ensures Consistent(n) ==> Consistent(r)
  {
    n.(anims := n.anims - n.animRemovals, animRemovals := {})
  }

  /** A removal takes effect at the next flush, not before. */
  lemma RemoveThenFlush(n: PNode, name: string)
    requires name in n.actions
    ensures name in RemoveAction(n, name).actions
    ensures name !in FlushActions(RemoveAction(n, name)).actions
  {
  }

  /**
   * Re-adding a name that is queued for removal does not save it: the flush
   * deletes the new record.
   */
  lemma ReAddWhilePendingIsLost(n: PNode, name: string, loop: bool, update: bool)
    requires name in n.actionRemovals
    ensures name !in FlushActions(AddAction(n, name, loop, update)).actions
  {
  }

  /** The same for animations: a re-added animation queued for removal is lost at the flush. */
  lemma ReAddAnimationWhilePendingIsLost(n: PNode, name: string, delay: real, period: real, loop: bool)
    requires name in n.animRemovals
    ensures name !in FlushAnimations(AddAnimation(n, name, delay, period, loop)).anims
  {
  }

  /** What one animation does on one paint. */
  datatype AnimOut = Removal | Call(phase: real) | Silent

  /**
   * `__update_animation`. A done animation only asks for its removal. A
   * waiting one counts its delay down, and starts when it reaches zero;
   * a started one adds the interval. Past the period a looping one wraps
   * around, any other is clamped to the period and marked done. A started
   * animation is then called with `elapsed / period`; `None` is the
   * `ZeroDivisionError` of a zero period.
   */
  function UpdateAnim(a: PAnim, interval: real): (r: Option<(PAnim, AnimOut)>)
    ensures a.done ==> r == Some((a, Removal))
    ensures r.None? <==> !a.done && a.period == 0.0 && (a.started || a.delay - interval <= 0.0)
    ensures r.Some? && !a.done ==>
              var b := r.value.0;
              b.loop == a.loop && b.period == a.period &&
              (r.value.1.Call? <==> b.started) && (r.value.1.Call? ==> r.value.1.phase * b.period == b.elapsed) &&
              (b.done ==> !a.loop && b.elapsed == a.period)
  {
    if a.done then Some((a, Removal))
    else
      var b := if !a.started then a.(delay := a.delay - interval, started := a.delay - interval <= 0.0)
               else a.(elapsed := a.elapsed + interval);
      var c := if b.elapsed > b.period then
                 (if b.loop then b.(elapsed := b.elapsed - b.period) else b.(elapsed := b.period, done := true))
               else b;
      if !c.started then Some((c, Silent))
      else if c.period == 0.0 then None
      else Some((c, Call(c.elapsed / c.period)))
  }

  /** The paint on which a non-looping animation runs past its period calls it with phase exactly 1 and marks it done. */
  lemma LastPhaseIsOne(a: PAnim, interval: real)
    requires a.started && !a.done && !a.loop && a.period > 0.0 && a.elapsed + interval > a.period
    ensures UpdateAnim(a, interval) == Some((a.(elapsed := a.period, done := true), Call(1.0)))
  {
    Numeric.DivSelf(a.period);
  }

  /** A done animation is not called again: its next paint queues its removal. */
  lemma DoneIsRemovedNext(a: PAnim, interval: real)
    requires a.started && !a.done && !a.loop && a.period > 0.0 && a.elapsed + interval > a.period
    ensures var b := UpdateAnim(a, interval).value.0;
            UpdateAnim(b, interval) == Some((b, Removal))
  {
  }

  /** The paint on which the delay runs out calls the animation at phase 0. */
  lemma StartPhaseZero(a: PAnim, interval: real)
    requires !a.started && !a.done && a.elapsed == 0.0 && a.period > 0.0 && a.delay - interval <= 0.0
    ensures var r := UpdateAnim(a, interval);
            r.Some? && r.value.1 == Call(0.0) && r.value.0.started
  {
  }

  /** Within its period and with a tick no longer than it, a started animation is called at a phase in [0, 1]. */
  lemma PhaseInUnit(a: PAnim, interval: real)
    requires a.started && !a.done && a.period > 0.0 && 0.0 <= a.elapsed <= a.period && 0.0 <= interval <= a.period
    ensures var r := UpdateAnim(a, interval);
            r.Some? && r.value.1.Call? && 0.0 <= r.value.1.phase <= 1.0 && 0.0 <= r.value.0.elapsed <= a.period
  {
    var r := UpdateAnim(a, interval);
    var b := r.value.0;
    assert r.value.1.phase * a.period == b.elapsed;
    PhaseBound(r.value.1.phase, a.period, b.elapsed);
  }

  lemma PhaseBound(p: real, d: real, e: real)
    requires d > 0.0 && p * d == e && 0.0 <= e <= d
    ensures 0.0 <= p <= 1.0
  {
    Numeric.MulLeInv(p, 1.0, d);
    Numeric.MulLeInv(0.0, p, d);
  }

  /** Whether some animation of the table fails this paint. */
  predicate AnyAnimFails(anims: map<string, PAnim>, interval: real) {
    exists k :: k in anims && UpdateAnim(anims[k], interval).None?
  }

  /**
   * The animation branch of `do_update_recursive` for one node: every
   * animation is updated, the done ones are queued for removal, and the
   * queue is flushed.
   */
  function AnimateNode(n: PNode, interval: real): (r: Option<(PNode, set<PEvent>)>)
    ensures r.None? <==> AnyAnimFails(n.anims, interval)
    ensures r.Some? ==> r.value.0.animated && r.value.0.animRemovals == {} &&
                        r.value.0.actions == n.actions && r.value.0.actionRemovals == n.actionRemovals
    ensures r.Some? ==> forall k :: k in r.value.0.anims <==>
              k in n.anims && k !in n.animRemovals && !n.anims[k].done
    ensures r.Some? ==> forall k, p :: CallAnim(k, p) in r.value.1 <==>
              k in n.anims && UpdateAnim(n.anims[k], interval).value.1 == Call(p)
  {
    if AnyAnimFails(n.anims, interval) then None
    else
      var updated := map k | k in n.anims :: UpdateAnim(n.anims[k], interval).value.0;
      var queued := n.animRemovals + set k | k in n.anims && n.anims[k].done;
      var ev := set k | k in n.anims && UpdateAnim(n.anims[k], interval).value.1.Call? ::
                  CallAnim(k, UpdateAnim(n.anims[k], interval).value.1.phase);
      Some((n.(anims := updated - queued, animRemovals := {}, animated := true), ev))
  }

  /**
   * One node's part of `do_update_recursive`: after its animations have
   * all gone it redraws with `on_update` on every paint; while it has
   * animations they draw it; otherwise an action with `update` makes it
   * redraw.
   */
  function UpdateNode(n: PNode, interval: real): (r: Option<(PNode, set<PEvent>)>)
    ensures n.animated && |n.anims| == 0 ==> r == Some((n, {OnUpdate}))
    ensures |n.anims| > 0 ==> r == AnimateNode(n, interval)
    ensures !n.animated && |n.anims| == 0 ==>
              r == Some((n, if exists k :: k in n.actions && n.actions[k].update then {OnUpdate} else {}))
  {
    if n.animated && |n.anims| == 0 then Some((n, {OnUpdate}))
    else if |n.anims| > 0 then AnimateNode(n, interval)
    else Some((n, if exists k :: k in n.actions && n.actions[k].update then {OnUpdate} else {}))
  }

  /** Once a node has been animated and its animations are gone, it redraws on every paint. */
  lemma AnimatedRedrawsForever(n: PNode, interval: real)
    requires n.animated && |n.anims| == 0
    ensures UpdateNode(n, interval).value.0 == n && OnUpdate in UpdateNode(n, interval).value.1
  {
  }

  /** Whether a non-looping action has already run. */
  predicate HasSpent(acts: map<string, PAction>) {
    exists k :: k in acts && acts[k].done && !acts[k].loop
  }

  /**
   * `do_tick_recursive` for one node's actions, as written: an action that
   * has run and does not loop reaches `current.remove_action[name]`, which
   * subscripts a method and raises `TypeError` (`None`); every other action
   * is called and marked done; then the removal queue is flushed.
   */
  function TickAsWritten(n: PNode): (r: Option<(PNode, set<string>)>)
    ensures r.None? <==> HasSpent(n.actions)
    ensures r.Some? ==> r.value.1 == n.actions.Keys && r.value.0.actions.Keys == n.actions.Keys - n.actionRemovals
    ensures r.Some? ==> forall k :: k in r.value.0.actions ==> r.value.0.actions[k].done
  {
    if HasSpent(n.actions) then None
    else
      var ran := map k | k in n.actions :: n.actions[k].(done := true);
      Some((FlushActions(n.(actions := ran)), n.actions.Keys))
  }

  /**
   * The tick the prototype evidently meant: an action that has run and does
   * not loop is queued for removal instead of being called again.
   */
  function Tick(n: PNode): (r: (PNode, set<string>))
    ensures r.1 == set k | k in n.actions && !(n.actions[k].done && !n.actions[k].loop)
    ensures r.0.actions.Keys == n.actions.Keys - n.actionRemovals - set k | k in n.actions && n.actions[k].done && !n.actions[k].loop
    ensures forall k :: k in r.0.actions ==> r.0.actions[k].done
    ensures r.0.actionRemovals == {} && r.0.anims == n.anims && r.0.animRemovals == n.animRemovals
  {
    var spent := set k | k in n.actions && n.actions[k].done && !n.actions[k].loop;
    var ran := map k | k in n.actions :: n.actions[k].(done := true);
    (FlushActions(n.(actions := ran, actionRemovals := n.actionRemovals + spent)), n.actions.Keys - spent)
  }

  /** When no action has been spent, the tick as written and the intended one agree. */
  lemma TickAgreesUnspent(n: PNode)
    requires !HasSpent(n.actions)
    ensures TickAsWritten(n) == Some(Tick(n))
  {
    var spent := set k | k in n.actions && n.actions[k].done && !n.actions[k].loop;
    assert spent == {};
    assert n.actions.Keys - spent == n.actions.Keys;
    assert n.actionRemovals + spent == n.actionRemovals;
  }

  /**
   * As written, a one-shot action crashes the second tick: the first tick
   * calls it, the second raises `TypeError`.
   */
  lemma OneShotCrashesSecondTick(name: string, update: bool)
    ensures var n1 := TickAsWritten(AddAction(Empty, name, false, update));
            n1.Some? && n1.value.1 == {name} && TickAsWritten(n1.value.0).None?
  {
    var n0 := AddAction(Empty, name, false, update);
    var n1 := TickAsWritten(n0);
    assert !HasSpent(n0.actions);
    assert name in n1.value.0.actions;
    assert HasSpent(n1.value.0.actions);
  }

  /** With the intended tick a one-shot action runs once and is gone after the second tick. */
  lemma OneShotRunsOnce(name: string, update: bool)
    ensures var n1 := Tick(AddAction(Empty, name, false, update));
            var n2 := Tick(n1.0);
            n1.1 == {name} && n2.1 == {} && name !in n2.0.actions
  {
    var n0 := AddAction(Empty, name, false, update);
    var n1 := Tick(n0);
    assert n1.0.actions.Keys == {name};
    assert n1.0.actions[name].done;
  }

  /** A looping action is called on every tick. */
  lemma LoopRunsEveryTick(n: PNode, name: string)
    requires name in n.actions && n.actions[name].loop
    ensures name in Tick(n).1
    ensures name !in n.actionRemovals ==> name in Tick(n).0.actions
  {
  }
}
