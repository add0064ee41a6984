/**
  Python's ordering of `str` values (code point by code point, a proper
  prefix first) and the `min()` of a non-empty list of strings.
 */
module StringOrder {

  /** `a <= b` as Python compares strings. */
  predicate LexLe(a: string, b: string)
    decreases |a|
  {
    |a| == 0 || (|b| > 0 && (a[0] < b[0] || (a[0] == b[0] && LexLe(a[1..], b[1..]))))
  }

  lemma {:induction false} LexLeReflexive(a: string)
    ensures LexLe(a, a)
    decreases |a|
  {
    if |a| > 0 {
      LexLeReflexive(a[1..]);
    }
  }

  lemma {:induction false} LexLeTotal(a: string, b: string)
    ensures LexLe(a, b) || LexLe(b, a)
    decreases |a|
  {
    if |a| > 0 && |b| > 0 && a[0] == b[0] {
      LexLeTotal(a[1..], b[1..]);
    }
  }

  lemma {:induction false} LexLeTransitive(a: string, b: string, c: string)
    requires LexLe(a, b) && LexLe(b, c)
    ensures LexLe(a, c)
    decreases |a|
  {
    if |a| > 0 && a[0] == b[0] && b[0] == c[0] {
      LexLeTransitive(a[1..], b[1..], c[1..]);
    }
  }

  lemma {:induction false} LexLeAntisymmetric(a: string, b: string)
    requires LexLe(a, b) && LexLe(b, a)
    ensures a == b
    decreases |a|
  {
    if |a| > 0 {
      LexLeAntisymmetric(a[1..], b[1..]);
      assert a == [a[0]] + a[1..] && b == [b[0]] + b[1..];
    }
  }

  /** `a` and `b` first differ at index `k`, where `a` has the smaller code point. */
  ghost predicate SmallerAt(a: string, b: string, k: int) {
    0 <= k < |a| && k < |b| && a[..k] == b[..k] && a[k] < b[k]
  }

  /**
    The usual description of Python's string order: `a <= b` exactly when
    `a` is a prefix of `b`, or at the first index where they differ `a` has
    the smaller code point.
   */
  lemma {:induction false} LexLeFirstDifference(a: string, b: string)
    ensures LexLe(a, b) <==> (|a| <= |b| && b[..|a|] == a) || exists k :: SmallerAt(a, b, k)
    decreases |a|
  {
    if |a| == 0 || |b| == 0 {
      assert forall k :: !SmallerAt(a, b, k);
    } else if a[0] != b[0] {
      if |a| <= |b| {
        SamePrefixSameHead(a, b, |a|);
        assert a[..|a|] == a;
      }
      forall k | SmallerAt(a, b, k)
        ensures k == 0
      {
        if k > 0 {
          SamePrefixSameHead(a, b, k);
        }
      }
      if a[0] < b[0] {
        assert SmallerAt(a, b, 0);
      }
    } else {
      var a', b' := a[1..], b[1..];
      LexLeFirstDifference(a', b');
      assert a == [a[0]] + a' && b == [b[0]] + b';
      assert (|a'| <= |b'| && b'[..|a'|] == a') <==> (|a| <= |b| && b[..|a|] == a) by {
        if |a| <= |b| {
          assert b[..|a|] == [b[0]] + b'[..|a'|];
        }
      }
      forall k
        ensures SmallerAt(a', b', k) <==> SmallerAt(a, b, k + 1)
      {
        if 0 <= k < |a'| && k < |b'| {
          assert a[..k + 1] == [a[0]] + a'[..k] && b[..k + 1] == [b[0]] + b'[..k];
        }
      }
      assert !SmallerAt(a, b, 0);
      if exists k :: SmallerAt(a, b, k) {
        var k :| SmallerAt(a, b, k);
        assert SmallerAt(a', b', k - 1);
      }
    }
  }

  /** Strings that agree on a non-empty prefix agree on their first character. */
  lemma SamePrefixSameHead(a: string, b: string, k: int)
    requires 0 < k <= |a| && k <= |b|
    ensures a[..k] == b[..k] ==> a[0] == b[0]
  {
    assert a[..k][0] == a[0] && b[..k][0] == b[0];
  }

  /**
    Python's `min(xs)` for a non-empty list of strings: an element of the
    list that is no greater than any other.
   */
  function LexMin(xs: seq<string>): (r: string)
    requires |xs| > 0
    ensures r in xs
    ensures forall x :: x in xs ==> LexLe(r, x)
    decreases |xs|
  {
    if |xs| == 1 then
      LexLeReflexive(xs[0]);
      xs[0]
    else
      var m := LexMin(xs[1..]);
      LexLeTotal(xs[0], m);
      if LexLe(xs[0], m) then
        LeastBelow(xs[0], m, xs[1..]);
        LexLeReflexive(xs[0]);
        assert xs == [xs[0]] + xs[1..];
        xs[0]
      else
        m
  }

  /** A value below the least element of a list is below all of it. */
  lemma LeastBelow(a: string, m: string, xs: seq<string>)
    requires LexLe(a, m)
    requires forall x :: x in xs ==> LexLe(m, x)
    ensures forall x :: x in xs ==> LexLe(a, x)
  {
    forall x | x in xs
      ensures LexLe(a, x)
    {
      LexLeTransitive(a, m, x);
    }
  }

  /** The minimum is the only element with that property. */
  lemma LexMinIsUnique(xs: seq<string>, y: string)
    requires |xs| > 0
    requires y in xs
    requires forall x :: x in xs ==> LexLe(y, x)
    ensures LexMin(xs) == y
  {
    LexLeAntisymmetric(LexMin(xs), y);
  }
}
