/**
 * motions.py: `scale` and `rotate` register one named, redrawing action
 * whose callback interpolates linearly between a start and an end value
 * by the action's phase.
 */
module Motions {
  import Numeric
  import opened Scheduler

  /** Linear interpolation from `start` to `end` at `phase`: `start + (end - start) * phase`. */
  function Lerp(start: real, end: real, phase: real): (v: real)
    ensures phase == 0.0 ==> v == start
    ensures phase == 1.0 ==> v == end
  {
    start + (end - start) * phase
  }

  /** For a phase in [0, 1] the interpolated value lies between the start and the end. */
  lemma LerpBetween(start: real, end: real, phase: real)
    requires 0.0 <= phase <= 1.0
    ensures start <= end ==> start <= Lerp(start, end, phase) <= end
    ensures end <= start ==> end <= Lerp(start, end, phase) <= start
  {
    var d := end - start;
    assert Lerp(start, end, phase) == start + d * phase;
    if d >= 0.0 {
      LerpStep(d, phase);
    } else {
      LerpStepNeg(d, phase);
    }
  }

  lemma LerpStep(d: real, phase: real)
    requires d >= 0.0 && 0.0 <= phase <= 1.0
    ensures 0.0 <= d * phase <= d
  {
    if d > 0.0 {
      Numeric.MulLe(phase, 1.0, d);
      Numeric.MulLe(0.0, phase, d);
    }
  }

  lemma LerpStepNeg(d: real, phase: real)
    requires d < 0.0 && 0.0 <= phase <= 1.0
    ensures d <= d * phase <= 0.0
  {
    LerpStep(-d, phase);
    assert (-d) * phase == -(d * phase);
  }

  /** The scale `_scale` sets at `phase`, per axis. */
  function ScaleAt(start: (real, real), end: (real, real), phase: real): (s: (real, real))
    ensures phase == 0.0 ==> s == start
    ensures phase == 1.0 ==> s == end
  {
    (Lerp(start.0, end.0, phase), Lerp(start.1, end.1, phase))
  }

  /** The angle `_rotate` sets at `phase`. */
  function AngleAt(start: real, end: real, phase: real): (a: real)
    ensures phase == 0.0 ==> a == start
    ensures phase == 1.0 ==> a == end
  {
    Lerp(start, end, phase)
  }

  /**
   * `scale`: the action named `'scale'`, with `update` set, replacing any
   * earlier scaling. The harmonic variant registers the same record with a
   * different callback, which is not modelled.
   */
  function Scale(t: Timing, duration: real, delay: real, loop: bool, cleanup: bool): (r: Timing)
    ensures "scale" in r.actions && r.actions["scale"].update
    ensures r.actions["scale"] == Action(duration, delay, true, loop, cleanup, 0.0, false)
    ensures forall n :: n != "scale" ==> (n in r.actions <==> n in t.actions)
  {
    AddAction(t, "scale", duration, delay, true, loop, cleanup)
  }

  /** `rotate`: the action named `'rotate'`, with `update` set. */
  function Rotate(t: Timing, duration: real, delay: real, loop: bool, cleanup: bool): (r: Timing)
    ensures "rotate" in r.actions && r.actions["rotate"].update
    ensures r.actions["rotate"] == Action(duration, delay, true, loop, cleanup, 0.0, false)
    ensures forall n :: n != "rotate" ==> (n in r.actions <==> n in t.actions)
  {
    AddAction(t, "rotate", duration, delay, true, loop, cleanup)
  }

  /** Scaling and rotating use different names, so a rotation leaves a running scale in place. */
  lemma ScaleAndRotate(t: Timing, d1: real, w1: real, l1: bool, c1: bool, d2: real, w2: real, l2: bool, c2: bool)
    ensures var r := Rotate(Scale(t, d1, w1, l1, c1), d2, w2, l2, c2);
            "scale" in r.actions && "rotate" in r.actions &&
            r.actions["scale"] == Scale(t, d1, w1, l1, c1).actions["scale"]
  {
    assert "scale" != "rotate";
  }

  /** A second `scale` replaces the first one. */
  lemma ScaleReplaces(t: Timing, d1: real, w1: real, l1: bool, c1: bool, d2: real, w2: real, l2: bool, c2: bool)
    ensures Scale(Scale(t, d1, w1, l1, c1), d2, w2, l2, c2) == Scale(t, d2, w2, l2, c2)
  {
    AddReplaces(t, "scale", d1, w1, true, l1, c1, d2, w2, true, l2, c2);
  }
}
