/** Python list operations the model uses, with the facts the proofs need. */
module Seqs {

  /**
   * Python `list.remove(x)`: drops the first occurrence (its order is in
   * `RemoveFirstOrder`); the model keeps the list when `x` is absent.
   */
  function RemoveFirst<T(==)>(s: seq<T>, x: T): (r: seq<T>)
    ensures multiset(r) == multiset(s) - multiset{x}
    ensures x !in s ==> r == s
  {
    if |s| == 0 then s
    else
      assert s == [s[0]] + s[1..];
      if s[0] == x then s[1..]
      else [s[0]] + RemoveFirst(s[1..], x)
  }

  /**
   * `list.remove(x)` takes out the first `x` and keeps the others in
   * their order: the result is the list with the position of the first
   * `x` cut out.
   */
  lemma {:induction false} RemoveFirstOrder<T>(s: seq<T>, x: T)
    ensures x in s ==> FirstRemoved(s, x, RemoveFirst(s, x))
    decreases |s|
  {
    if |s| > 0 {
      if s[0] == x {
        assert s[..0] + s[1..] == s[1..];
      } else {
        RemoveFirstOrder(s[1..], x);
        FirstRemovedCons(s, x, RemoveFirst(s[1..], x));
      }
    }
  }

  /** `t` is `s` without its first `x`, the others in the same order. */
  ghost predicate FirstRemoved<T>(s: seq<T>, x: T, t: seq<T>) {
    exists i :: 0 <= i < |s| && s[i] == x && x !in s[..i] && t == s[..i] + s[i + 1..]
  }

  /** Dropping the first `x` from a list's tail drops the first `x` from the list, when its head is not `x`. */
  lemma FirstRemovedCons<T>(s: seq<T>, x: T, t: seq<T>)
    requires |s| > 0 && s[0] != x
    requires x in s[1..] ==> FirstRemoved(s[1..], x, t)
    ensures x in s ==> FirstRemoved(s, x, [s[0]] + t)
  {
    if x in s {
      var u := s[1..];
      assert x in u by {
        var k :| 0 <= k < |s| && s[k] == x;
        assert u[k - 1] == x;
      }
      var i :| 0 <= i < |u| && u[i] == x && x !in u[..i] && t == u[..i] + u[i + 1..];
      assert s[..i + 1] == [s[0]] + u[..i];
      assert s[i + 2..] == u[i + 1..];
      assert [s[0]] + t == s[..i + 1] + s[i + 2..];
      assert s[i + 1] == x && x !in s[..i + 1];
    }
  }

  /** A list headed by `x` loses its head. */
  lemma RemoveFirstHead<T>(s: seq<T>, x: T)
    requires |s| > 0 && s[0] == x
    ensures RemoveFirst(s, x) == s[1..]
  {
  }

  /** Removing a present element shortens the list by one and adds nothing. */
  lemma RemoveFirstShrinks<T>(s: seq<T>, x: T)
    ensures x in s ==> |RemoveFirst(s, x)| == |s| - 1
    ensures forall y :: y in RemoveFirst(s, x) ==> y in s
  {
    var r := RemoveFirst(s, x);
    assert |multiset(r)| == |r| && |multiset(s)| == |s|;
    if x in s {
      assert multiset(s) == multiset(r) + multiset{x};
    }
    forall y | y in r ensures y in s {
      assert multiset(r)[y] > 0;
    }
  }

  /** `list.remove` never lengthens a list. */
  lemma {:induction false} RemoveFirstNoLonger<T>(s: seq<T>, x: T)
    ensures |RemoveFirst(s, x)| <= |s|
  {
    if |s| > 0 && s[0] != x {
      RemoveFirstNoLonger(s[1..], x);
    }
  }

  /** Removing a value appended to a list it did not occur in gives the list back. */
  lemma {:induction false} RemoveFirstAppend<T>(s: seq<T>, x: T)
    requires x !in s
    ensures RemoveFirst(s + [x], x) == s
  {
    if |s| > 0 {
      var t := s + [x];
      assert t[0] == s[0] != x;
      assert t[1..] == s[1..] + [x];
      RemoveFirstAppend(s[1..], x);
      assert RemoveFirst(t, x) == [s[0]] + s[1..];
    } else {
      assert s + [x] == [x];
    }
  }

  /** No element occurs twice. */
  predicate NoDup<T(==)>(s: seq<T>) {
    forall i, j :: 0 <= i < j < |s| ==> s[i] != s[j]
  }

  /** Removing from a list without duplicates removes every copy. */
  lemma {:induction false} RemoveFirstNoDup<T>(s: seq<T>, x: T)
    requires NoDup(s)
    ensures x !in RemoveFirst(s, x)
    ensures NoDup(RemoveFirst(s, x))
  {
    if |s| == 0 {
    } else if s[0] == x {
      NoDupTail(s);
      assert s == [s[0]] + s[1..];
    } else {
      var t := s[1..];
      NoDupTail(s);
      RemoveFirstNoDup(t, x);
      var r := RemoveFirst(t, x);
      assert RemoveFirst(s, x) == [s[0]] + r;
      RemoveFirstShrinks(t, x);
      assert s[0] !in r;
      NoDupCons(s[0], r);
    }
  }

  /** The tail of a list without duplicates has none, and does not hold the head. */
  lemma NoDupTail<T>(s: seq<T>)
    requires NoDup(s) && |s| > 0
    ensures NoDup(s[1..]) && s[0] !in s[1..]
  {
    var t := s[1..];
    forall i, j | 0 <= i < j < |t| ensures t[i] != t[j] {
      assert t[i] == s[i + 1] && t[j] == s[j + 1];
    }
    forall k | 0 <= k < |t| ensures t[k] != s[0] {
      assert t[k] == s[k + 1];
    }
  }

  /** Prepending an absent element keeps a list free of duplicates. */
  lemma NoDupCons<T>(a: T, r: seq<T>)
    requires NoDup(r) && a !in r
    ensures NoDup([a] + r)
  {
    var u := [a] + r;
    forall i, j | 0 <= i < j < |u| ensures u[i] != u[j] {
      assert u[j] == r[j - 1];
      if i > 0 {
        assert u[i] == r[i - 1];
      }
    }
  }

  /** The elements of `s` that satisfy `p`, in order. */
  function Filter<T>(s: seq<T>, p: T -> bool): (r: seq<T>)
    ensures |r| <= |s|
    ensures forall y :: y in r ==> y in s && p(y)
  {
    if |s| == 0 then []
    else if p(s[0]) then [s[0]] + Filter(s[1..], p)
    else Filter(s[1..], p)
  }

  lemma {:induction false} FilterConcat<T>(a: seq<T>, b: seq<T>, p: T -> bool)
    ensures Filter(a + b, p) == Filter(a, p) + Filter(b, p)
  {
    if |a| == 0 {
      assert a + b == b;
    } else {
      assert (a + b)[1..] == a[1..] + b;
      FilterConcat(a[1..], b, p);
    }
  }
}
