/**
 * Style evaluation of pnode.py: a node's position, size and z-index come
 * from a dictionary of style keys, evaluated against its parent's size in
 * a fixed key order.
 */
module Style {
  import opened Wrappers
  import Numeric
  import Text

  /** A style key: one of the ten recognised keys, or any other string. */
  datatype Key =
    | Width | Height | Left | Top | Right | Bottom | Aspect | Align | VAlign | ZIndex
    | Other(name: string)

  /** The recognised keys, in evaluation order (`_style_key`). */
  const Keys: seq<Key> := [Width, Height, Left, Top, Right, Bottom, Aspect, Align, VAlign, ZIndex]

  /** The text of a recognised key. */
  function Name(k: Key): string
    requires !k.Other?
  {
    match k
    case Width => "width"
    case Height => "height"
    case Left => "left"
    case Top => "top"
    case Right => "right"
    case Bottom => "bottom"
    case Aspect => "aspect"
    case Align => "align"
    case VAlign => "vertical-align"
    case ZIndex => "z-index"
  }

  /** The key a dictionary string denotes. */
  function KeyOf(s: string): (k: Key)
    ensures k.Other? ==> k.name == s
  {
    if s == "width" then Width
    else if s == "height" then Height
    else if s == "left" then Left
    else if s == "top" then Top
    else if s == "right" then Right
    else if s == "bottom" then Bottom
    else if s == "aspect" then Aspect
    else if s == "align" then Align
    else if s == "vertical-align" then VAlign
    else if s == "z-index" then ZIndex
    else Other(s)
  }

  /** Reading a recognised key's text gives the key back, and no other string does. */
  lemma KeyOfName(k: Key, s: string)
    requires !k.Other?
    ensures KeyOf(Name(k)) == k
    ensures KeyOf(s) == k ==> s == Name(k)
  {
  }

  /** A style value as written: a number, or a string such as `'20%'` or `'center'`. */
  datatype Value = Number(r: real) | Str(s: string)

  /** What `parse_value` yields: a number, or the stripped keyword. */
  datatype Parsed = Num(v: real) | Word(w: string)

  /**
   * A node's evaluated geometry: `x`, `y`, `z_index`, `width`, `height`.
   * The four pixel attributes take whatever `parse_value` returned, so a
   * keyword such as `'foo'` can end up in them.
   */
  datatype Geom = Geom(x: Parsed, y: Parsed, z: int, w: Parsed, h: Parsed)

  /** `style_key_prio`: a key's position in the evaluation order; unknown keys come last. */
  function KeyPrio(k: Key): (p: nat)
    ensures p <= |Keys|
    ensures p < |Keys| <==> !k.Other?
    ensures p < |Keys| ==> Keys[p] == k
  {
    match k
    case Width => 0
    case Height => 1
    case Left => 2
    case Top => 3
    case Right => 4
    case Bottom => 5
    case Aspect => 6
    case Align => 7
    case VAlign => 8
    case ZIndex => 9
    case Other(_) => 10
  }

  /** `p` percent of `rel`, truncated to an int as `int(...)` does. */
  function PercentOf(rel: real, p: real): real {
    Numeric.Trunc(rel * p / 100.0) as real
  }

  /**
   * `parse_value`: a number is kept; a string is stripped, and when it ends
   * in `'%'` the rest is read as a float and taken as a percentage of `rel`,
   * truncated to an int; any other string is returned stripped. `None` is
   * the exception the source raises: an empty string (the index `[-1]`
   * fails) or a percentage that is not a number.
   */
  function ParseValue(v: Value, rel: real): (r: Option<Parsed>)
    ensures v.Number? ==> r == Some(Num(v.r))
    ensures v.Str? && r.Some? && r.value.Word? ==>
              r.value.w == Text.Strip(v.s) && |r.value.w| > 0 && r.value.w[|r.value.w| - 1] != '%'
    ensures v.Str? && r.Some? && r.value.Num? ==>
              var t := Text.Strip(v.s);
              |t| > 0 && t[|t| - 1] == '%' && Text.ParseFloat(t[..|t| - 1]).Some? &&
              r.value.v == PercentOf(rel, Text.ParseFloat(t[..|t| - 1]).value)
    ensures v.Str? && r.None? ==>
              var t := Text.Strip(v.s);
              |t| == 0 || (t[|t| - 1] == '%' && Text.ParseFloat(t[..|t| - 1]).None?)
  {
    match v
    case Number(x) => Some(Num(x))
    case Str(s) =>
      var t := Text.Strip(s);
      if |t| == 0 then None
      else if t[|t| - 1] == '%' then
        match Text.ParseFloat(t[..|t| - 1])
        case None => None
        case Some(p) => Some(Num(PercentOf(rel, p)))
      else Some(Word(t))
  }

  /** A percentage between 0 and 100 of a non-negative size lies between 0 and that size. */
  lemma PercentWithin(rel: real, p: real)
    requires rel >= 0.0 && 0.0 <= p <= 100.0
    ensures 0.0 <= PercentOf(rel, p) <= rel
  {
    Numeric.PercentBounds(rel, p);
  }

  /** `'<n>%'`, padded with whitespace or not, parses as `n` percent of `rel`. */
  lemma ParsePercent(n: int, pad: string, rel: real)
    requires forall i :: 0 <= i < |pad| ==> Text.IsSpace(pad[i])
    ensures ParseValue(Str(pad + Text.ShowInt(n) + "%"), rel) == Some(Num(PercentOf(rel, n as real)))
  {
    var u := Text.ShowInt(n) + "%";
    assert pad + Text.ShowInt(n) + "%" == pad + u;
    Text.StripPadded(pad, u);
    assert u[..|u| - 1] == Text.ShowInt(n);
    Text.ParseFloatShow(n);
  }

  /** A parsed value that must be a number; a keyword where a number is needed is an error. */
  function NumberOf(v: Value, rel: real): (r: Option<real>)
    ensures r.Some? <==> ParseValue(v, rel).Some? && ParseValue(v, rel).value.Num?
    ensures r.Some? ==> r.value == ParseValue(v, rel).value.v
  {
    match ParseValue(v, rel)
    case Some(Num(x)) => Some(x)
    case _ => None
  }

  /** `float(value)`, as the `aspect` key reads it. */
  function FloatOf(v: Value): (r: Option<real>)
    ensures v.Number? ==> r == Some(v.r)
    ensures v.Str? ==> r == Text.ParseFloat(v.s)
  {
    match v
    case Number(x) => Some(x)
    case Str(s) => Text.ParseFloat(s)
  }

  /** `int(value)`, as the `z-index` key reads it. */
  function IntOf(v: Value): (r: Option<int>)
    ensures v.Number? ==> r == Some(Numeric.Trunc(v.r))
    ensures v.Str? ==> r == Text.ParseInt(v.s)
  {
    match v
    case Number(x) => Some(Numeric.Trunc(x))
    case Str(s) => Text.ParseInt(s)
  }

  /** The geometry before any key is applied: at the origin, parent-sized, z-index 0. */
  function Defaults(pw: real, ph: real): Geom {
    Geom(Num(0.0), Num(0.0), 0, Num(pw), Num(ph))
  }

  /** Python 2's `<` between two strings: lexicographic on the characters. */
  predicate StrLess(s: string, t: string)
    decreases |s|
  {
    if |s| == 0 then |t| > 0
    else if |t| == 0 then false
    else if s[0] != t[0] then s[0] < t[0]
    else StrLess(s[1..], t[1..])
  }

  /** A string is never below itself. */
  lemma {:induction false} StrLessIrreflexive(s: string)
    ensures !StrLess(s, s)
    decreases |s|
  {
    if |s| > 0 {
      StrLessIrreflexive(s[1..]);
    }
  }

  /** Python 2's `<` between two attribute values: numbers by value, any number below any string, strings lexicographically. */
  predicate Py2Less(a: Parsed, b: Parsed) {
    match (a, b)
    case (Num(x), Num(y)) => x < y
    case (Num(_), Word(_)) => true
    case (Word(_), Num(_)) => false
    case (Word(s), Word(t)) => StrLess(s, t)
  }

  /** `min(a, b)`: `a` unless `b` is below it. */
  function Py2Min(a: Parsed, b: Parsed): (r: Parsed)
    ensures r == a || r == b
    ensures a.Num? && b.Num? ==> r == Num(Numeric.MinR(a.v, b.v))
    ensures a.Num? != b.Num? ==> r.Num?
  {
    if Py2Less(b, a) then b else a
  }

  /** `p - q` on attribute values: a keyword on either side raises `TypeError`. */
  function Sub(p: Parsed, q: Parsed): (r: Option<Parsed>)
    ensures r.Some? <==> p.Num? && q.Num?
    ensures r.Some? ==> r.value == Num(p.v - q.v)
  {
    if p.Num? && q.Num? then Some(Num(p.v - q.v)) else None
  }

  /** Width is `a` times height; a square of any value when `a` is 1. */
  predicate HasAspect(g: Geom, a: real) {
    (g.w.Num? && g.h.Num? && g.w.v == g.h.v * a) || (a == 1.0 && g.w == g.h)
  }

  /**
   * `aspect` with ratio `a`: shrink one side so that width is `a` times
   * height. The ratio 1 takes `min` of the two sides, which Python 2 also
   * does on keywords; the other ratios divide or multiply a side, and a
   * keyword there raises `TypeError`.
   */
  function ApplyAspect(g: Geom, a: real): (r: Option<Geom>)
    ensures r.Some? ==> HasAspect(r.value, a)
    ensures r.Some? ==> r.value.x == g.x && r.value.y == g.y && r.value.z == g.z
    ensures r.None? <==> (a > 1.0 && g.w.Word?) || (a < 1.0 && g.h.Word?)
    ensures a == 1.0 && g.w.Num? && g.h.Num? ==> r.Some? && r.value.w == Num(Numeric.MinR(g.w.v, g.h.v))
    ensures a > 1.0 && r.Some? ==> r.value.w == g.w
    ensures a < 1.0 && r.Some? ==> r.value.h == g.h
  {
    if a == 1.0 then
      var m := Py2Min(g.h, g.w);
      Some(g.(w := m, h := m))
    else if a > 1.0 then
      if g.w.Word? then None
      else
        Numeric.DivMul(g.w.v, a);
        Some(g.(h := Num(g.w.v / a)))
    else if g.h.Word? then None
    else Some(g.(w := Num(g.h.v * a)))
  }

  /** `align`: only the three keywords move the node; any other value leaves it. Centring or right-aligning a keyword width raises. */
  function AlignTo(g: Geom, v: Value, pw: real): (r: Option<Geom>)
    ensures r.Some? ==> r.value.y == g.y && r.value.z == g.z && r.value.w == g.w && r.value.h == g.h
    ensures r.None? <==> v in {Str("center"), Str("right")} && g.w.Word?
    ensures v == Str("center") && r.Some? ==> r.value.x.Num? && g.w.Num? && 2.0 * r.value.x.v + g.w.v == pw
    ensures v == Str("left") ==> r == Some(g.(x := Num(0.0)))
    ensures v == Str("right") && r.Some? ==> r.value.x.Num? && g.w.Num? && r.value.x.v + g.w.v == pw
    ensures v !in {Str("center"), Str("left"), Str("right")} ==> r == Some(g)
  {
    if v == Str("center") then
      (match Sub(Num(pw), g.w) case None => None case Some(d) => Some(g.(x := Num(d.v / 2.0))))
    else if v == Str("left") then Some(g.(x := Num(0.0)))
    else if v == Str("right") then
      (match Sub(Num(pw), g.w) case None => None case Some(d) => Some(g.(x := d)))
    else Some(g)
  }

  /** `vertical-align`, the same on the other axis. */
  function VAlignTo(g: Geom, v: Value, ph: real): (r: Option<Geom>)
    ensures r.Some? ==> r.value.x == g.x && r.value.z == g.z && r.value.w == g.w && r.value.h == g.h
    ensures r.None? <==> v in {Str("center"), Str("bottom")} && g.h.Word?
    ensures v == Str("center") && r.Some? ==> r.value.y.Num? && g.h.Num? && 2.0 * r.value.y.v + g.h.v == ph
    ensures v == Str("top") ==> r == Some(g.(y := Num(0.0)))
    ensures v == Str("bottom") && r.Some? ==> r.value.y.Num? && g.h.Num? && r.value.y.v + g.h.v == ph
    ensures v !in {Str("center"), Str("top"), Str("bottom")} ==> r == Some(g)
  {
    if v == Str("center") then
      (match Sub(Num(ph), g.h) case None => None case Some(d) => Some(g.(y := Num(d.v / 2.0))))
    else if v == Str("top") then Some(g.(y := Num(0.0)))
    else if v == Str("bottom") then
      (match Sub(Num(ph), g.h) case None => None case Some(d) => Some(g.(y := d)))
    else Some(g)
  }

  /**
   * `right` and `bottom`: `parent - size - value` when the style sets the
   * size on that axis (moving the node), `parent - position - value`
   * otherwise (resizing it); `None` when `parse_value` raises or a
   * keyword meets the subtraction.
   */
  function FromEdge(pos: Parsed, size: Parsed, sized: bool, v: Value, rel: real): (r: Option<(Parsed, Parsed)>)
    ensures r.Some? ==> NumberOf(v, rel).Some? && r.value.0.Num? && r.value.1.Num?
                        && r.value.0.v + r.value.1.v + NumberOf(v, rel).value == rel
    ensures r.Some? && sized ==> r.value.1 == size
    ensures r.Some? && !sized ==> r.value.0 == pos
    ensures r.None? <==> ParseValue(v, rel).None? || (NumberOf(v, rel).None? || (if sized then size.Word? else pos.Word?))
  {
    match ParseValue(v, rel)
    case None => None
    case Some(n) =>
      if sized then
        (match Sub(Num(rel), size) case None => None
         case Some(d) => (match Sub(d, n) case None => None case Some(e) => Some((e, size))))
      else
        (match Sub(Num(rel), pos) case None => None
         case Some(d) => (match Sub(d, n) case None => None case Some(e) => Some((pos, e))))
  }

  /**
   * One key of `evaluate_style` applied to the geometry so far. `width`,
   * `height`, `left` and `top` take `parse_value` as it comes, a keyword
   * included; `right` and `bottom` end the node that far from the parent's
   * edge.
   */
  function Step(k: Key, v: Value, style: map<Key, Value>, g: Geom, pw: real, ph: real): (r: Option<Geom>)
    ensures k == Width ==> r == (match ParseValue(v, pw) case None => None case Some(p) => Some(g.(w := p)))
    ensures k == Left ==> r == (match ParseValue(v, pw) case None => None case Some(p) => Some(g.(x := p)))
    ensures k == Right && r.Some? ==>
              NumberOf(v, pw).Some? && r.value.x.Num? && r.value.w.Num? &&
              r.value.x.v + r.value.w.v + NumberOf(v, pw).value == pw && r.value.y == g.y && r.value.h == g.h &&
              (Width in style ==> r.value.w == g.w) && (Width !in style ==> r.value.x == g.x)
    ensures k == Bottom && r.Some? ==>
              NumberOf(v, ph).Some? && r.value.y.Num? && r.value.h.Num? &&
              r.value.y.v + r.value.h.v + NumberOf(v, ph).value == ph && r.value.x == g.x && r.value.w == g.w &&
              (Height in style ==> r.value.h == g.h) && (Height !in style ==> r.value.y == g.y)
    ensures k == ZIndex ==> r == (match IntOf(v) case None => None case Some(z) => Some(g.(z := z)))
    ensures k.Other? ==> r == Some(g)
  {
    match k
    case Width => (match ParseValue(v, pw) case None => None case Some(p) => Some(g.(w := p)))
    case Height => (match ParseValue(v, ph) case None => None case Some(p) => Some(g.(h := p)))
    case Left => (match ParseValue(v, pw) case None => None case Some(p) => Some(g.(x := p)))
    case Top => (match ParseValue(v, ph) case None => None case Some(p) => Some(g.(y := p)))
    case Right =>
      (match FromEdge(g.x, g.w, Width in style, v, pw) case None => None case Some(e) => Some(g.(x := e.0, w := e.1)))
    case Bottom =>
      (match FromEdge(g.y, g.h, Height in style, v, ph) case None => None case Some(e) => Some(g.(y := e.0, h := e.1)))
    case Aspect => (match FloatOf(v) case None => None case Some(a) => ApplyAspect(g, a))
    case Align => AlignTo(g, v, pw)
    case VAlign => VAlignTo(g, v, ph)
    case ZIndex => (match IntOf(v) case None => None case Some(z) => Some(g.(z := z)))
    case Other(_) => Some(g)
  }

  /** The keys from position `i` on, applied in order to `g`; `None` as soon as one raises. */
  function EvalFrom(i: nat, g: Geom, style: map<Key, Value>, pw: real, ph: real): Option<Geom>
    requires i <= |Keys|
    decreases |Keys| - i
  {
    if i == |Keys| then Some(g)
    else if Keys[i] in style then
      match Step(Keys[i], style[Keys[i]], style, g, pw, ph)
      case None => None
      case Some(g2) => EvalFrom(i + 1, g2, style, pw, ph)
    else EvalFrom(i + 1, g, style, pw, ph)
  }

  /**
   * `evaluate_style` for a parent of size `pw` x `ph`: the defaults, then
   * the style's keys sorted by priority. Unknown keys sort last and do
   * nothing, so the order of the dictionary does not matter.
   */
  function EvaluateStyle(style: map<Key, Value>, pw: real, ph: real): Option<Geom> {
    EvalFrom(0, Defaults(pw, ph), style, pw, ph)
  }

  /** `evaluate_style` of a style with no recognised key is the defaults. */
  lemma EvaluateDefaults(style: map<Key, Value>, pw: real, ph: real)
    requires forall k :: k in style ==> k.Other?
    ensures EvaluateStyle(style, pw, ph) == Some(Defaults(pw, ph))
  {
    assert forall j :: 0 <= j < |Keys| ==> !Keys[j].Other?;
    NoKeysFrom(style, pw, ph, 0, Defaults(pw, ph));
  }

  /** The recognised part of a style. */
  function Known(style: map<Key, Value>): (r: map<Key, Value>)
    ensures forall k :: k in r <==> k in style && !k.Other?
    ensures forall k :: k in r ==> r[k] == style[k]
  {
    map k | k in style && !k.Other? :: style[k]
  }

  /** Unknown keys have no effect. */
  lemma {:induction false} IgnoresUnknownFrom(style: map<Key, Value>, pw: real, ph: real, i: nat, g: Geom)
    requires i <= |Keys|
    ensures EvalFrom(i, g, style, pw, ph) == EvalFrom(i, g, Known(style), pw, ph)
    decreases |Keys| - i
  {
    if i < |Keys| {
      var k := Keys[i];
      var ks := Known(style);
      assert k in style <==> k in ks;
      if k in style {
        assert (Width in style <==> Width in ks) && (Height in style <==> Height in ks);
        assert Step(k, style[k], style, g, pw, ph) == Step(k, ks[k], ks, g, pw, ph);
        match Step(k, style[k], style, g, pw, ph)
        case None =>
        case Some(g2) => IgnoresUnknownFrom(style, pw, ph, i + 1, g2);
      } else {
        IgnoresUnknownFrom(style, pw, ph, i + 1, g);
      }
    }
  }

  lemma IgnoresUnknown(style: map<Key, Value>, pw: real, ph: real)
    ensures EvaluateStyle(style, pw, ph) == EvaluateStyle(Known(style), pw, ph)
  {
    IgnoresUnknownFrom(style, pw, ph, 0, Defaults(pw, ph));
  }

  /** The keys after `align` (`vertical-align`, `z-index`) keep `x` and `width`. */
  lemma {:induction false} TailKeepsX(style: map<Key, Value>, pw: real, ph: real, i: nat, g: Geom)
    requires 8 <= i <= |Keys|
    ensures var r := EvalFrom(i, g, style, pw, ph);
            r.Some? ==> r.value.x == g.x && r.value.w == g.w
    decreases |Keys| - i
  {
    if i < |Keys| {
      var k := Keys[i];
      if k in style {
        match Step(k, style[k], style, g, pw, ph)
        case None =>
        case Some(g2) => TailKeepsX(style, pw, ph, i + 1, g2);
      } else {
        TailKeepsX(style, pw, ph, i + 1, g);
      }
    }
  }

  /** `align: 'center'` centres the node horizontally, whatever the other keys. */
  lemma {:induction false} AlignCenterFrom(style: map<Key, Value>, pw: real, ph: real, i: nat, g: Geom)
    requires i <= 7
    requires Align in style && style[Align] == Str("center")
    ensures var r := EvalFrom(i, g, style, pw, ph);
            r.Some? ==> r.value.x.Num? && r.value.w.Num? && 2.0 * r.value.x.v + r.value.w.v == pw
    decreases 7 - i
  {
    var k := Keys[i];
    if i == 7 {
      match AlignTo(g, style[Align], pw)
      case None =>
      case Some(g2) =>
        assert Step(k, style[k], style, g, pw, ph) == Some(g2);
        TailKeepsX(style, pw, ph, 8, g2);
    } else if k in style {
      match Step(k, style[k], style, g, pw, ph)
      case None =>
      case Some(g2) => AlignCenterFrom(style, pw, ph, i + 1, g2);
    } else {
      AlignCenterFrom(style, pw, ph, i + 1, g);
    }
  }

  lemma AlignCenter(style: map<Key, Value>, pw: real, ph: real)
    requires Align in style && style[Align] == Str("center")
    ensures var r := EvaluateStyle(style, pw, ph);
            r.Some? ==> r.value.x.Num? && r.value.w.Num? && 2.0 * r.value.x.v + r.value.w.v == pw
  {
    AlignCenterFrom(style, pw, ph, 0, Defaults(pw, ph));
  }

  /** The keys after `aspect` keep `width` and `height`. */
  lemma {:induction false} TailKeepsSize(style: map<Key, Value>, pw: real, ph: real, i: nat, g: Geom)
    requires 7 <= i <= |Keys|
    ensures var r := EvalFrom(i, g, style, pw, ph);
            r.Some? ==> r.value.w == g.w && r.value.h == g.h
    decreases |Keys| - i
  {
    if i < |Keys| {
      var k := Keys[i];
      if k in style {
        match Step(k, style[k], style, g, pw, ph)
        case None =>
        case Some(g2) => TailKeepsSize(style, pw, ph, i + 1, g2);
      } else {
        TailKeepsSize(style, pw, ph, i + 1, g);
      }
    }
  }

  /** `aspect: a` leaves the node `a` times as wide as it is high, whatever the other keys. */
  lemma {:induction false} AspectFrom(style: map<Key, Value>, pw: real, ph: real, i: nat, g: Geom, a: real)
    requires i <= 6
    requires Aspect in style && FloatOf(style[Aspect]) == Some(a)
    ensures var r := EvalFrom(i, g, style, pw, ph);
            r.Some? ==> HasAspect(r.value, a)
    decreases 6 - i
  {
    if i == 6 {
      AspectLast(style, pw, ph, g, a);
    } else if Keys[i] in style {
      match Step(Keys[i], style[Keys[i]], style, g, pw, ph)
      case None =>
      case Some(g2) => AspectFrom(style, pw, ph, i + 1, g2, a);
    } else {
      AspectFrom(style, pw, ph, i + 1, g, a);
    }
  }

  /** The `aspect` key itself, and the keys after it, which keep the size. */
  lemma AspectLast(style: map<Key, Value>, pw: real, ph: real, g: Geom, a: real)
    requires Aspect in style && FloatOf(style[Aspect]) == Some(a)
    ensures var r := EvalFrom(6, g, style, pw, ph);
            r.Some? ==> HasAspect(r.value, a)
  {
    EvalAtAspect(style, pw, ph, g, a);
    var s := ApplyAspect(g, a);
    if s.Some? {
      TailKeepsAspect(style, pw, ph, 7, s.value, a);
    }
  }

  /** At the `aspect` key the evaluation goes on from the shrunk geometry, or stops. */
  lemma EvalAtAspect(style: map<Key, Value>, pw: real, ph: real, g: Geom, a: real)
    requires Aspect in style && FloatOf(style[Aspect]) == Some(a)
    ensures EvalFrom(6, g, style, pw, ph) ==
              if ApplyAspect(g, a).Some? then EvalFrom(7, ApplyAspect(g, a).value, style, pw, ph) else None
  {
    assert Keys[6] == Aspect;
    assert Step(Aspect, style[Aspect], style, g, pw, ph) == ApplyAspect(g, a);
  }

  /** The keys after `aspect` keep the ratio of the sides. */
  lemma TailKeepsAspect(style: map<Key, Value>, pw: real, ph: real, i: nat, g: Geom, a: real)
    requires 7 <= i <= |Keys| && HasAspect(g, a)
    ensures var r := EvalFrom(i, g, style, pw, ph);
            r.Some? ==> HasAspect(r.value, a)
  {
    TailKeepsSize(style, pw, ph, i, g);
  }

  lemma AspectHolds(style: map<Key, Value>, pw: real, ph: real, a: real)
    requires Aspect in style && FloatOf(style[Aspect]) == Some(a)
    ensures var r := EvaluateStyle(style, pw, ph);
            r.Some? ==> HasAspect(r.value, a)
  {
    AspectFrom(style, pw, ph, 0, Defaults(pw, ph), a);
  }

  /**
   * `right: d` without `aspect` or `align` leaves the node `d` from the
   * parent's right edge, whether the style sets its width or not.
   */
  lemma {:induction false} RightFrom(style: map<Key, Value>, pw: real, ph: real, i: nat, g: Geom)
    requires i <= 4
    requires Right in style && Aspect !in style && Align !in style
    ensures var r := EvalFrom(i, g, style, pw, ph);
            r.Some? ==> r.value.x.Num? && r.value.w.Num? && r.value.x.v + r.value.w.v + NumberOf(style[Right], pw).value == pw
    decreases 4 - i
  {
    var k := Keys[i];
    if i == 4 {
      match Step(k, style[k], style, g, pw, ph)
      case None =>
      case Some(g2) =>
        BottomKeepsX(style, pw, ph, g2);
    } else if k in style {
      match Step(k, style[k], style, g, pw, ph)
      case None =>
      case Some(g2) => RightFrom(style, pw, ph, i + 1, g2);
    } else {
      RightFrom(style, pw, ph, i + 1, g);
    }
  }

  /** Without `aspect` and `align`, the keys after `right` keep `x` and `width`. */
  lemma BottomKeepsX(style: map<Key, Value>, pw: real, ph: real, g: Geom)
    requires Aspect !in style && Align !in style
    ensures var r := EvalFrom(5, g, style, pw, ph);
            r.Some? ==> r.value.x == g.x && r.value.w == g.w
  {
    if Bottom in style {
      match Step(Bottom, style[Bottom], style, g, pw, ph)
      case None =>
      case Some(g3) =>
        assert EvalFrom(6, g3, style, pw, ph) == EvalFrom(7, g3, style, pw, ph) == EvalFrom(8, g3, style, pw, ph);
        TailKeepsX(style, pw, ph, 8, g3);
    } else {
      assert EvalFrom(5, g, style, pw, ph) == EvalFrom(6, g, style, pw, ph);
      assert EvalFrom(6, g, style, pw, ph) == EvalFrom(7, g, style, pw, ph) == EvalFrom(8, g, style, pw, ph);
      TailKeepsX(style, pw, ph, 8, g);
    }
  }

  lemma RightEdge(style: map<Key, Value>, pw: real, ph: real)
    requires Right in style && Aspect !in style && Align !in style
    ensures var r := EvaluateStyle(style, pw, ph);
            r.Some? ==> r.value.x.Num? && r.value.w.Num? && r.value.x.v + r.value.w.v + NumberOf(style[Right], pw).value == pw
  {
    RightFrom(style, pw, ph, 0, Defaults(pw, ph));
  }

  /** `z-index`, the last key, sets the z-index outright. */
  lemma ZIndexLast(style: map<Key, Value>, pw: real, ph: real)
    requires ZIndex in style
    ensures var r := EvaluateStyle(style, pw, ph);
            r.Some? ==> IntOf(style[ZIndex]) == Some(r.value.z)
  {
    ZIndexFrom(style, pw, ph, 0, Defaults(pw, ph));
  }

  lemma {:induction false} ZIndexFrom(style: map<Key, Value>, pw: real, ph: real, i: nat, g: Geom)
    requires i <= 9
    requires ZIndex in style
    ensures var r := EvalFrom(i, g, style, pw, ph);
            r.Some? ==> IntOf(style[ZIndex]) == Some(r.value.z)
    decreases 9 - i
  {
    var k := Keys[i];
    if i == 9 {
    } else if k in style {
      match Step(k, style[k], style, g, pw, ph)
      case None =>
      case Some(g2) => ZIndexFrom(style, pw, ph, i + 1, g2);
    } else {
      ZIndexFrom(style, pw, ph, i + 1, g);
    }
  }

  /** A keyword `left` is stored as it is: the position stays the stripped word. */
  lemma KeywordLeftKept(s: string, pw: real, ph: real)
    requires |s| > 0 && !Text.IsSpace(s[0]) && !Text.IsSpace(s[|s| - 1]) && s[|s| - 1] != '%'
    ensures EvaluateStyle(map[Left := Str(s)], pw, ph) == Some(Defaults(pw, ph).(x := Word(s)))
  {
    var style := map[Left := Str(s)];
    Text.StripTrimmed(s);
    var g := Defaults(pw, ph).(x := Word(s));
    assert Step(Left, Str(s), style, Defaults(pw, ph), pw, ph) == Some(g);
    NoKeysFrom(style, pw, ph, 3, g);
  }

  /** ... and `align: 'center'` afterwards overwrites it with a number, so the pair does not raise. */
  lemma KeywordLeftCentred(s: string, pw: real, ph: real)
    requires |s| > 0 && !Text.IsSpace(s[0]) && !Text.IsSpace(s[|s| - 1]) && s[|s| - 1] != '%'
    ensures EvaluateStyle(map[Left := Str(s), Align := Str("center")], pw, ph) == Some(Defaults(pw, ph))
  {
    var style := map[Left := Str(s), Align := Str("center")];
    Text.StripTrimmed(s);
    var g := Defaults(pw, ph).(x := Word(s));
    assert Step(Left, Str(s), style, Defaults(pw, ph), pw, ph) == Some(g);
    assert EvalFrom(0, Defaults(pw, ph), style, pw, ph) == EvalFrom(3, g, style, pw, ph);
    assert EvalFrom(3, g, style, pw, ph) == EvalFrom(7, g, style, pw, ph);
    assert Step(Align, Str("center"), style, g, pw, ph) == Some(Defaults(pw, ph));
    NoKeysFrom(style, pw, ph, 8, Defaults(pw, ph));
  }

  /** Past the last key the style holds, the geometry is final. */
  lemma {:induction false} NoKeysFrom(style: map<Key, Value>, pw: real, ph: real, i: nat, g: Geom)
    requires i <= |Keys|
    requires forall j :: i <= j < |Keys| ==> Keys[j] !in style
    ensures EvalFrom(i, g, style, pw, ph) == Some(g)
    decreases |Keys| - i
  {
    if i < |Keys| {
      NoKeysFrom(style, pw, ph, i + 1, g);
    }
  }
}
