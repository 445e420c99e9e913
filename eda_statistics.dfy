/**
 * Descriptive statistics over the non-missing values of a numeric column, in
 * exact rational arithmetic: sum, mean, minimum, maximum, ascending sort and
 * quantiles by linear interpolation (the default method of Series.quantile).
 */
module EdaStatistics {
  import opened RealArith

  function Sum(s: seq<real>): real {
    if s == [] then 0.0 else Sum(s[..|s| - 1]) + s[|s| - 1]
  }

  /** Series.mean() */
  function Mean(s: seq<real>): real
    requires |s| > 0
  {
    Sum(s) / |s| as real
  }

  /** Series.min() */
  function MinOf(s: seq<real>): (r: real)
    requires |s| > 0
    ensures r in s && forall x | x in s :: r <= x
  {
    if |s| == 1 then s[0]
    else
      var m := MinOf(s[1..]);
      assert forall x | x in s :: x == s[0] || x in s[1..];
      if s[0] <= m then s[0] else m
  }

  /** Series.max() */
  function MaxOf(s: seq<real>): (r: real)
    requires |s| > 0
    ensures r in s && forall x | x in s :: x <= r
  {
    if |s| == 1 then s[0]
    else
      var m := MaxOf(s[1..]);
      assert forall x | x in s :: x == s[0] || x in s[1..];
      if m <= s[0] then s[0] else m
  }

  predicate Ascending(s: seq<real>) {
    forall i, j | 0 <= i < j < |s| :: s[i] <= s[j]
  }

  /** Puts x in front of the first element of s that is not smaller. */
  function Insert(x: real, s: seq<real>): (r: seq<real>)
    ensures |r| == |s| + 1 && multiset(r) == multiset(s) + multiset{x}
    ensures Ascending(s) ==> Ascending(r)
  {
    if s == [] then [x]
    else if x <= s[0] then
      ConsAscending(x, s);
      [x] + s
    else
      var tail := Insert(x, s[1..]);
      assert s == [s[0]] + s[1..];
      LowerBoundKept(s[0], x, s[1..], tail);
      ConsAscending(s[0], tail);
      [s[0]] + tail
  }

  lemma LowerBoundKept(b: real, x: real, s: seq<real>, t: seq<real>)
    requires b <= x && multiset(t) == multiset(s) + multiset{x}
    ensures (forall y | y in s :: b <= y) ==> forall y | y in t :: b <= y
  {
    if forall y | y in s :: b <= y {
      forall y | y in t ensures b <= y {
        assert y in multiset(t);
        assert y in multiset(s) || y == x;
        if y in multiset(s) {
          assert y in s;
        }
      }
    }
  }

  /** Prepending a value not above the first element keeps a sequence ascending. */
  lemma ConsAscending(b: real, t: seq<real>)
    ensures Ascending(t) && (forall y | y in t :: b <= y) ==> Ascending([b] + t)
    ensures Ascending(t) && t != [] && b <= t[0] ==> Ascending([b] + t)
  {
    var r := [b] + t;
    if Ascending(t) && ((forall y | y in t :: b <= y) || (t != [] && b <= t[0])) {
      forall i, j | 0 <= i < j < |r| ensures r[i] <= r[j] {
        if i > 0 {
          assert r[i] == t[i - 1] && r[j] == t[j - 1];
        } else {
          assert r[j] == t[j - 1] && t[j - 1] in t;
          assert t[0] <= t[j - 1];
        }
      }
    }
  }

  /** The values in ascending order, as numpy sorts them before it
      interpolates a quantile. */
  function Sort(s: seq<real>): (r: seq<real>)
    ensures |r| == |s| && multiset(r) == multiset(s)
    ensures Ascending(r)
  {
    if s == [] then []
    else
      assert s == [s[0]] + s[1..];
      Insert(s[0], Sort(s[1..]))
  }

  /** numpy's linear interpolation from a towards b by the fraction t. */
  function Lerp(a: real, b: real, t: real): real {
    a + (b - a) * t
  }

  lemma LerpBetween(a: real, b: real, t: real)
    requires a <= b && 0.0 <= t <= 1.0
    ensures a <= Lerp(a, b, t) <= b
  {
    MulMonotone(b - a, 0.0, t);
    MulMonotone(b - a, t, 1.0);
  }

  lemma LerpMonotone(a: real, b: real, t: real, t': real)
    requires a <= b && t <= t'
    ensures Lerp(a, b, t) <= Lerp(a, b, t')
  {
    MulMonotone(b - a, t, t');
  }

  /** The value at fractional position pos of s: the element at the floor of
      pos, moved towards the next element by the fractional part of pos. */
  function Interp(s: seq<real>, pos: real): real
    requires |s| > 0 && 0.0 <= pos <= (|s| - 1) as real
  {
    var lo := pos.Floor;
    if lo + 1 < |s| then Lerp(s[lo], s[lo + 1], pos - lo as real) else s[lo]
  }

  /** Where the quantile q of n values is read: position (n - 1) * q. */
  function Position(n: nat, q: real): (p: real)
    requires n > 0 && 0.0 <= q <= 1.0
    ensures 0.0 <= p <= (n - 1) as real
  {
    MulMonotone((n - 1) as real, q, 1.0);
    MulMonotone((n - 1) as real, 0.0, q);
    (n - 1) as real * q
  }

  lemma PositionMonotone(n: nat, q: real, q': real)
    requires n > 0 && 0.0 <= q <= q' <= 1.0
    ensures Position(n, q) <= Position(n, q')
  {
    MulMonotone((n - 1) as real, q, q');
  }

  /** Series.quantile(q) with linear interpolation: the sorted values read at
      position (n - 1) * q. */
  function Quantile(s: seq<real>, q: real): real
    requires |s| > 0 && 0.0 <= q <= 1.0
  {
    Interp(Sort(s), Position(|s|, q))
  }

  /** Series.median(), the 0.5 quantile. */
  function Median(s: seq<real>): real
    requires |s| > 0
  {
    Quantile(s, 0.5)
  }

  // ---------------------------------------------------------------------------
  // Properties of the quantiles
  // ---------------------------------------------------------------------------

  lemma InterpBetween(s: seq<real>, pos: real)
    requires |s| > 0 && 0.0 <= pos <= (|s| - 1) as real && Ascending(s)
    ensures var lo := pos.Floor;
      s[lo] <= Interp(s, pos) && (lo + 1 < |s| ==> Interp(s, pos) <= s[lo + 1])
  {
    var lo := pos.Floor;
    if lo + 1 < |s| {
      LerpBetween(s[lo], s[lo + 1], pos - lo as real);
    }
  }

  /** Reading an ascending sequence at a later position never gives a smaller value. */
  lemma InterpMonotone(s: seq<real>, p: real, p': real)
    requires |s| > 0 && 0.0 <= p <= p' <= (|s| - 1) as real && Ascending(s)
    ensures Interp(s, p) <= Interp(s, p')
  {
    var lo, lo' := p.Floor, p'.Floor;
    InterpBetween(s, p);
    InterpBetween(s, p');
    if lo == lo' {
      if lo + 1 < |s| {
        LerpMonotone(s[lo], s[lo + 1], p - lo as real, p' - lo as real);
      }
    } else {
      assert lo + 1 <= lo';
      assert s[lo + 1] <= s[lo'];
    }
  }

  /** A larger quantile level never gives a smaller quantile. */
  lemma QuantileMonotone(s: seq<real>, q: real, q': real)
    requires |s| > 0 && 0.0 <= q <= q' <= 1.0
    ensures Quantile(s, q) <= Quantile(s, q')
  {
    PositionMonotone(|s|, q, q');
    InterpMonotone(Sort(s), Position(|s|, q), Position(|s|, q'));
  }

  /** The smallest and largest sorted values are the minimum and the maximum. */
  lemma SortEnds(s: seq<real>)
    requires |s| > 0
    ensures |Sort(s)| == |s|
    ensures Sort(s)[0] == MinOf(s) && Sort(s)[|s| - 1] == MaxOf(s)
  {
    var r, n := Sort(s), |s|;
    var lo, hi := MinOf(s), MaxOf(s);
    SameElements(r, s);
    assert r[0] in r && r[n - 1] in r;
    assert lo in r && hi in r;
    var i :| 0 <= i < n && r[i] == lo;
    var k :| 0 <= k < n && r[k] == hi;
    assert r[0] <= r[i] && r[k] <= r[n - 1];
  }

  lemma SameElements(a: seq<real>, b: seq<real>)
    requires multiset(a) == multiset(b)
    ensures forall x :: x in a <==> x in b
  {
    forall x ensures x in a <==> x in b {
      assert x in a <==> x in multiset(a);
      assert x in b <==> x in multiset(b);
    }
  }

  /** The 0 quantile is the minimum and the 1 quantile the maximum. */
  lemma QuantileEnds(s: seq<real>)
    requires |s| > 0
    ensures Quantile(s, 0.0) == MinOf(s)
    ensures Quantile(s, 1.0) == MaxOf(s)
  {
    SortEnds(s);
    var n := |s|;
    assert Position(n, 0.0) == 0.0;
    assert Position(n, 1.0) == (n - 1) as real;
    assert ((n - 1) as real).Floor == n - 1;
  }

  /** Every quantile lies between the minimum and the maximum. */
  lemma QuantileBounds(s: seq<real>, q: real)
    requires |s| > 0 && 0.0 <= q <= 1.0
    ensures MinOf(s) <= Quantile(s, q) <= MaxOf(s)
  {
    QuantileEnds(s);
    QuantileMonotone(s, 0.0, q);
    QuantileMonotone(s, q, 1.0);
  }

  /** The five numbers of a box plot are ordered:
      min <= q1 <= median <= q3 <= max. */
  lemma FiveNumbersOrdered(s: seq<real>)
    requires |s| > 0
    ensures MinOf(s) <= Quantile(s, 0.25) <= Median(s) <= Quantile(s, 0.75) <= MaxOf(s)
  {
    QuantileBounds(s, 0.25);
    QuantileBounds(s, 0.75);
    QuantileMonotone(s, 0.25, 0.5);
    QuantileMonotone(s, 0.5, 0.75);
  }

  /** The median is the middle sorted value for an odd count and the mean of the
      two middle values for an even count, as Series.median() computes it. */
  lemma MedianIsMiddle(s: seq<real>)
    requires |s| > 0
    ensures |Sort(s)| == |s| && Median(s) == Middle(Sort(s))
  {
    InterpAtMiddle(Sort(s));
  }

  /** The middle of a sorted sequence: its middle value, or the mean of its
      two middle values. */
  function Middle(r: seq<real>): real
    requires |r| > 0
  {
    var n := |r|;
    if n % 2 == 1 then r[n / 2] else (r[n / 2 - 1] + r[n / 2]) / 2.0
  }

  lemma InterpAtMiddle(r: seq<real>)
    requires |r| > 0
    ensures Interp(r, Position(|r|, 0.5)) == Middle(r)
  {
    var n := |r|;
    var k := n / 2;
    var pos := Position(n, 0.5);
    assert pos == (n - 1) as real * 0.5;
    if n % 2 == 1 {
      assert (n - 1) as real == 2.0 * k as real;
      assert pos == k as real;
      InterpAtWhole(r, k);
    } else {
      assert (n - 1) as real == 2.0 * (k - 1) as real + 1.0;
      assert pos == (k - 1) as real + 0.5;
      InterpAtHalf(r, k);
    }
  }

  lemma InterpAtWhole(r: seq<real>, k: nat)
    requires k < |r|
    ensures Interp(r, k as real) == r[k]
  {
    assert (k as real).Floor == k;
  }

  lemma InterpAtHalf(r: seq<real>, k: nat)
    requires 0 < k < |r|
    ensures Interp(r, (k - 1) as real + 0.5) == (r[k - 1] + r[k]) / 2.0
  {
    assert ((k - 1) as real + 0.5).Floor == k - 1;
    assert Lerp(r[k - 1], r[k], 0.5) == (r[k - 1] + r[k]) / 2.0;
  }

  /** Two ascending sequences with the same elements start alike. */
  lemma SameHead(a: seq<real>, b: seq<real>)
    requires Ascending(a) && Ascending(b) && multiset(a) == multiset(b)
    requires a != []
    ensures b != [] && a[0] == b[0]
  {
    SameElements(a, b);
    assert a[0] in a;
    assert a[0] in b;
    assert b[0] in b;
    var i :| 0 <= i < |b| && b[i] == a[0];
    var k :| 0 <= k < |a| && a[k] == b[0];
    assert b[0] <= b[i];
    assert a[0] <= a[k];
  }

  lemma SameTail(a: seq<real>, b: seq<real>)
    requires multiset(a) == multiset(b)
    requires a != [] && b != [] && a[0] == b[0]
    ensures multiset(a[1..]) == multiset(b[1..])
  {
    assert a == [a[0]] + a[1..];
    assert b == [b[0]] + b[1..];
    assert multiset(a) == multiset{a[0]} + multiset(a[1..]);
    assert multiset(b) == multiset{b[0]} + multiset(b[1..]);
    assert multiset(a[1..]) == multiset(a) - multiset{a[0]};
    assert multiset(b[1..]) == multiset(b) - multiset{b[0]};
  }

  /** Two ascending sequences with the same elements are equal, so any
      ascending rearrangement of s is Sort(s). */
  lemma {:induction false} AscendingUnique(a: seq<real>, b: seq<real>)
    requires Ascending(a) && Ascending(b) && multiset(a) == multiset(b)
    ensures a == b
  {
    if a == [] {
      assert |multiset(b)| == 0;
    } else {
      SameHead(a, b);
      SameTail(a, b);
      AscendingUnique(a[1..], b[1..]);
      assert a == [a[0]] + a[1..];
      assert b == [b[0]] + b[1..];
    }
  }

  lemma SortIs(s: seq<real>, r: seq<real>)
    requires Ascending(r) && multiset(r) == multiset(s)
    ensures Sort(s) == r
  {
    AscendingUnique(Sort(s), r);
  }

  /** Checking neighbours suffices for Ascending. */
  lemma {:induction false} AscendingSteps(s: seq<real>)
    requires forall i | 0 < i < |s| :: s[i - 1] <= s[i]
    ensures Ascending(s)
  {
    if |s| > 1 {
      var init := s[..|s| - 1];
      assert forall i | 0 < i < |init| :: init[i - 1] <= init[i];
      AscendingSteps(init);
      forall i, j | 0 <= i < j < |s| ensures s[i] <= s[j] {
        if j < |s| - 1 {
          assert s[i] == init[i] && s[j] == init[j];
        } else if i < j - 1 {
          assert s[i] == init[i] && s[j - 1] == init[j - 1];
        }
      }
    }
  }
}
