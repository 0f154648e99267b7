/** Python number conversions the model needs, written out over Dafny's unbounded types. */
module Numeric {

  /** Python `int(r)` on a float: truncation toward zero. */
  function Trunc(r: real): (i: int)
    ensures r >= 0.0 ==> i as real <= r < i as real + 1.0
    ensures r <= 0.0 ==> i as real - 1.0 < r <= i as real
    ensures i >= 0 <==> r > -1.0
  {
    if r >= 0.0 then r.Floor else -((-r).Floor)
  }

  /** Python `min(a, b)` on floats. */
  function MinR(a: real, b: real): (m: real)
    ensures m <= a && m <= b
    ensures m == a || m == b
  {
    if a <= b then a else b
  }

  /** Python `min(a, b)` on ints. */
  function MinI(a: int, b: int): (m: int)
    ensures m <= a && m <= b
    ensures m == a || m == b
  {
    if a <= b then a else b
  }

  /** Python `max(a, b)` on ints. */
  function MaxI(a: int, b: int): (m: int)
    ensures m >= a && m >= b
    ensures m == a || m == b
  {
    if a >= b then a else b
  }

  /** Python 2 `a / b` on ints: floor division (Dafny's `/` agrees for a positive divisor). */
  function FloorDiv(a: int, b: int): (q: int)
    requires b > 0
    ensures q * b <= a < q * b + b
    ensures a >= 0 ==> q >= 0
  {
    a / b
  }

  /** Dividing by a non-zero real and multiplying back is the identity. */
  lemma DivMul(a: real, r: real)
    requires r != 0.0
    ensures (a / r) * r == a
  {
  }

  lemma MulLe(a: real, b: real, c: real)
    requires a <= b && c > 0.0
    ensures a * c <= b * c
  {
  }

  lemma MulLt(a: real, b: real, c: real)
    requires a < b && c > 0.0
    ensures a * c < b * c
  {
  }

  lemma MulLeInv(a: real, b: real, c: real)
    requires c > 0.0 && a * c <= b * c
    ensures a <= b
  {
  }

  lemma MulLtInv(a: real, b: real, c: real)
    requires c > 0.0 && a * c < b * c
    ensures a < b
  {
  }

  /** `int(s / c)` for non-negative `s` is the `k` with `k * c <= s < (k + 1) * c`. */
  lemma TruncDivBounds(s: real, c: real)
    requires s >= 0.0 && c > 0.0
    ensures var k := Trunc(s / c);
            k >= 0 && k as real * c <= s < (k as real + 1.0) * c
  {
    var q := s / c;
    DivMul(s, c);
    assert q * c == s;
    MulLeInv(0.0, q, c);
    var k := Trunc(q);
    assert k >= 0 && k as real <= q < k as real + 1.0;
    MulLe(k as real, q, c);
    var k1 := k as real + 1.0;
    MulLt(q, k1, c);
    assert q * c < k1 * c;
    assert s < k1 * c;
    assert k as real * c <= s;
  }

  /** A quotient below `k + 1` truncates to at most `k`. */
  lemma TruncBelow(s: real, c: real, k: int)
    requires c > 0.0 && k >= 0 && s < (k as real + 1.0) * c
    ensures Trunc(s / c) <= k
  {
    var q := s / c;
    DivMul(s, c);
    MulLtInv(q, k as real + 1.0, c);
    assert q < k as real + 1.0;
  }

  /** A quotient of at least `k` truncates to at least `k`. */
  lemma TruncAbove(s: real, c: real, k: int)
    requires c > 0.0 && k >= 0 && s >= k as real * c
    ensures Trunc(s / c) >= k
  {
    var q := s / c;
    DivMul(s, c);
    MulLeInv(k as real, q, c);
    assert q >= k as real;
  }

  /** The `k` of `TruncDivBounds` is unique. */
  lemma TruncDivUnique(s: real, c: real, k: int)
    requires c > 0.0 && k >= 0 && k as real * c <= s < (k as real + 1.0) * c
    ensures Trunc(s / c) == k
  {
    var q := s / c;
    DivMul(s, c);
    assert q * c == s;
    MulLeInv(k as real, q, c);
    MulLtInv(q, k as real + 1.0, c);
    var t := Trunc(q);
    assert t as real <= q < t as real + 1.0;
  }

  /** A quotient of positive reals is positive. */
  lemma DivPos(a: real, b: real)
    requires b > 0.0
    ensures a > 0.0 ==> a / b > 0.0
  {
    if a > 0.0 {
      DivMul(a, b);
      assert (a / b) * b == a;
      MulLtInv(0.0, a / b, b);
    }
  }

  /** A quotient known to be exact. */
  lemma DivExact(a: real, b: real, k: real)
    requires b > 0.0 && a == k * b
    ensures a / b == k
  {
    DivMul(a, b);
    assert (a / b) * b == k * b;
    MulLeInv(a / b, k, b);
    MulLeInv(k, a / b, b);
  }

  /** `int(rel * p / 100)` for a percentage `p` between 0 and 100 lies between 0 and `rel`. */
  lemma PercentBounds(rel: real, p: real)
    requires rel >= 0.0 && 0.0 <= p <= 100.0
    ensures 0.0 <= Trunc(rel * p / 100.0) as real <= rel
  {
    var a := rel * p;
    if rel == 0.0 {
      assert a == 0.0;
    } else {
      MulLe(p, 100.0, rel);
      MulLe(0.0, p, rel);
      assert a == p * rel;
      assert 0.0 <= a <= 100.0 * rel;
    }
    var q := a / 100.0;
    assert 0.0 <= q <= rel;
  }


  /** A non-zero real divided by itself is one. */
  lemma DivSelf(a: real)
    requires a != 0.0
    ensures a / a == 1.0
  {
  }

  /** Multiplying by a positive int keeps the order. */
  lemma MulLeInt(a: int, b: int, c: int)
    requires a <= b && c > 0
    ensures a * c <= b * c
  {
  }

  /** A part of a positive whole, as a fraction of it, lies in [0, 1]. */
  lemma UnitDiv(e: real, d: real)
    requires d > 0.0 && 0.0 <= e <= d
    ensures 0.0 <= e / d <= 1.0
  {
    DivMul(e, d);
    MulLeInv(e / d, 1.0, d);
    MulLeInv(0.0, e / d, d);
  }
}
