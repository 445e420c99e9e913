/**
  The scatter-plot candidates (column, column, |r|) and their in-place sort
  by strength, strongest first, as list.sort(key=..., reverse=True) does it:
  stably, so pairs of equal strength keep their order.
*/
module EdaPairSort {
  import opened EdaTable

  /** A candidate pair of columns with the absolute value of their r. */
  datatype Scored = Scored(column1: string, column2: string, strength: real)

  /** Strengths never increase along the sequence. */
  predicate ByStrength(s: seq<Scored>) {
    forall i, j | 0 <= i < j < |s| :: s[i].strength >= s[j].strength
  }

  /** Puts e after the last element at least as strong as e. */
  function InsertDesc(e: Scored, s: seq<Scored>): (r: seq<Scored>)
    ensures |r| == |s| + 1 && multiset(r) == multiset(s) + multiset{e}
  {
    if s == [] || s[|s| - 1].strength >= e.strength then s + [e]
    else
      assert s == s[..|s| - 1] + [s[|s| - 1]];
      InsertDesc(e, s[..|s| - 1]) + [s[|s| - 1]]
  }

  /** Inserting into a sequence ordered by strength keeps it ordered. */
  lemma {:induction false} InsertOrdered(e: Scored, s: seq<Scored>)
    requires ByStrength(s)
    ensures ByStrength(InsertDesc(e, s))
  {
    if s == [] || s[|s| - 1].strength >= e.strength {
      SnocByStrength(s, e);
    } else {
      var init, last := s[..|s| - 1], s[|s| - 1];
      assert s == init + [last];
      assert ByStrength(init);
      InsertOrdered(e, init);
      var r' := InsertDesc(e, init);
      UpperBoundKept(last, e, init, r');
      SnocByStrength(r', last);
    }
  }

  /** When every element of s, and e, is at least as strong as b, so is
      every element of a rearrangement of s with e. */
  lemma UpperBoundKept(b: Scored, e: Scored, s: seq<Scored>, t: seq<Scored>)
    requires b.strength <= e.strength && multiset(t) == multiset(s) + multiset{e}
    ensures ByStrength(s + [b]) ==> forall y | y in t :: b.strength <= y.strength
  {
    var sb := s + [b];
    forall y | y in t && ByStrength(sb) ensures b.strength <= y.strength {
      assert y in multiset(t);
      if y in multiset(s) {
        assert y in s;
        var k :| 0 <= k < |s| && s[k] == y;
        assert sb[k] == y && sb[|s|] == b;
      }
    }
  }

  /** Appending an element no stronger than every element keeps the order. */
  lemma SnocByStrength(s: seq<Scored>, e: Scored)
    ensures ByStrength(s) && (s == [] || s[|s| - 1].strength >= e.strength) ==> ByStrength(s + [e])
    ensures ByStrength(s) && (forall y | y in s :: e.strength <= y.strength) ==> ByStrength(s + [e])
  {
    var r := s + [e];
    if ByStrength(s) && ((s == [] || s[|s| - 1].strength >= e.strength) || (forall y | y in s :: e.strength <= y.strength)) {
      forall i, j | 0 <= i < j < |r| ensures r[i].strength >= r[j].strength {
        if j < |s| {
          assert r[i] == s[i] && r[j] == s[j];
        } else {
          assert r[i] == s[i] && s[i] in s;
        }
      }
    }
  }

  /** Insertion sort, strongest first; sorted(..., reverse=True). */
  function SortDesc(s: seq<Scored>): (r: seq<Scored>)
    ensures |r| == |s| && multiset(r) == multiset(s)
  {
    if s == [] then []
    else
      assert s == s[..|s| - 1] + [s[|s| - 1]];
      InsertDesc(s[|s| - 1], SortDesc(s[..|s| - 1]))
  }

  /** The sort orders by strength, strongest first. */
  lemma {:induction false} SortOrdered(s: seq<Scored>)
    ensures ByStrength(SortDesc(s))
  {
    if s != [] {
      SortOrdered(s[..|s| - 1]);
      InsertOrdered(s[|s| - 1], SortDesc(s[..|s| - 1]));
    }
  }

  /** The test "has strength v". */
  function HasStrength(v: real): Scored -> bool {
    (e: Scored) => e.strength == v
  }

  /** Inserting keeps the relative order of equally strong elements, the new
      one coming after those already there. */
  lemma {:induction false} InsertStable(e: Scored, s: seq<Scored>, v: real)
    requires ByStrength(s)
    ensures Filter(InsertDesc(e, s), HasStrength(v)) ==
      Filter(s, HasStrength(v)) + (if e.strength == v then [e] else [])
  {
    var p := HasStrength(v);
    if s == [] || s[|s| - 1].strength >= e.strength {
      FilterSnoc(s, e, p);
    } else {
      var init, last := s[..|s| - 1], s[|s| - 1];
      assert s == init + [last];
      assert ByStrength(init);
      InsertStable(e, init, v);
      StableStep(e, init, last, InsertDesc(e, init), v);
    }
  }

  /** The inductive step of InsertStable: last, weaker than e, goes after
      the insertion into init. */
  lemma StableStep(e: Scored, init: seq<Scored>, last: Scored, r: seq<Scored>, v: real)
    requires last.strength < e.strength
    requires Filter(r, HasStrength(v)) == Filter(init, HasStrength(v)) + (if e.strength == v then [e] else [])
    ensures Filter(r + [last], HasStrength(v)) ==
      Filter(init + [last], HasStrength(v)) + (if e.strength == v then [e] else [])
  {
    var p := HasStrength(v);
    FilterSnoc(r, last, p);
    FilterSnoc(init, last, p);
    if e.strength == v {
      assert !p(last);
    }
  }

  /** The sort is stable: the elements of each strength come out in their
      input order. */
  lemma {:induction false} SortStable(s: seq<Scored>, v: real)
    ensures Filter(SortDesc(s), HasStrength(v)) == Filter(s, HasStrength(v))
  {
    if s != [] {
      var init, last := s[..|s| - 1], s[|s| - 1];
      assert s == init + [last];
      SortStable(init, v);
      SortOrdered(init);
      InsertStable(last, SortDesc(init), v);
      FilterSnoc(init, last, HasStrength(v));
    }
  }

  /** Python's pairs.sort(key=lambda x: x[2], reverse=True), in place. */
  method SortPairs(a: array<Scored>)
    modifies a
    ensures a[..] == SortDesc(old(a[..]))
  {
    ghost var s := a[..];
    var i := 0;
    while i < a.Length
      invariant 0 <= i <= a.Length
      invariant a[..i] == SortDesc(s[..i])
      invariant forall k | i <= k < a.Length :: a[k] == s[k]
    {
      assert a[i] == s[i];
      InsertInto(a, i);
      SortDescStep(s, i);
      i := i + 1;
    }
    assert a[..] == a[..a.Length] && s == s[..a.Length];
  }

  /** Sorting one more element inserts it into the sorted prefix. */
  lemma SortDescStep(s: seq<Scored>, i: nat)
    requires i < |s|
    ensures SortDesc(s[..i + 1]) == InsertDesc(s[i], SortDesc(s[..i]))
  {
    assert s[..i + 1][..i] == s[..i];
  }

  /** One pass of insertion sort: moves a[i] back into the prefix a[..i]. */
  method InsertInto(a: array<Scored>, i: nat)
    requires i < a.Length
    modifies a
    ensures a[..i + 1] == InsertDesc(old(a[i]), old(a[..i]))
    ensures forall k | i < k < a.Length :: a[k] == old(a[k])
  {
    ghost var p := a[..i];
    var key := a[i];
    var j := ShiftWeaker(a, i, key);
    a[j] := key;
    ghost var r := a[..i + 1];
    assert forall k | 0 <= k <= i :: r[k] == a[k];
    Placed(key, p, j, r);
  }

  /** The shifting loop of an insertion pass: moves the elements of a[..i]
      weaker than key, which form a suffix, one place up, and returns the
      gap they leave. */
  method ShiftWeaker(a: array<Scored>, i: nat, key: Scored) returns (j: nat)
    requires i < a.Length
    modifies a
    ensures j <= i
    ensures forall k | 0 <= k < j :: a[k] == old(a[k])
    ensures forall k | j < k <= i :: a[k] == old(a[k - 1])
    ensures forall k | j <= k < i :: old(a[k]).strength < key.strength
    ensures j == 0 || old(a[j - 1]).strength >= key.strength
    ensures forall k | i < k < a.Length :: a[k] == old(a[k])
  {
    j := i;
    while j > 0 && a[j - 1].strength < key.strength
      invariant 0 <= j <= i
      invariant forall k | 0 <= k < j :: a[k] == old(a[k])
      invariant forall k | j < k <= i :: a[k] == old(a[k - 1])
      invariant forall k | j <= k < i :: old(a[k]).strength < key.strength
      invariant forall k | i < k < a.Length :: a[k] == old(a[k])
    {
      a[j] := a[j - 1];
      j := j - 1;
    }
  }

  /** The state an insertion pass leaves behind: p with e put at j, where the
      elements of p from j on are weaker than e and the one before is not. */
  lemma Placed(e: Scored, p: seq<Scored>, j: nat, s: seq<Scored>)
    requires j <= |p| && |s| == |p| + 1
    requires forall k | 0 <= k < j :: s[k] == p[k]
    requires s[j] == e
    requires forall k | j < k < |s| :: s[k] == p[k - 1]
    requires j == 0 || p[j - 1].strength >= e.strength
    requires forall k | j <= k < |p| :: p[k].strength < e.strength
    ensures s == InsertDesc(e, p)
  {
    var pre, suf := p[..j], p[j..];
    assert p == pre + suf;
    assert forall k | 0 <= k < |suf| :: suf[k] == p[j + k];
    InsertPosition(e, pre, suf);
    Spliced(e, p, j, s);
  }

  /** s is p with e put at j. */
  lemma Spliced(e: Scored, p: seq<Scored>, j: nat, s: seq<Scored>)
    requires j <= |p| && |s| == |p| + 1
    requires forall k | 0 <= k < j :: s[k] == p[k]
    requires s[j] == e
    requires forall k | j < k < |s| :: s[k] == p[k - 1]
    ensures s == p[..j] + [e] + p[j..]
  {
    var q := p[..j] + [e] + p[j..];
    forall k | 0 <= k < |s| ensures s[k] == q[k] {
      if k > j {
        assert q[k] == p[j..][k - j - 1];
      }
    }
  }

  /** e lands between pre and suf when every element of suf is weaker than e
      and the last of pre, if any, is not. */
  lemma {:induction false} InsertPosition(e: Scored, pre: seq<Scored>, suf: seq<Scored>)
    requires pre == [] || pre[|pre| - 1].strength >= e.strength
    requires forall k | 0 <= k < |suf| :: suf[k].strength < e.strength
    ensures InsertDesc(e, pre + suf) == pre + [e] + suf
  {
    if suf == [] {
      assert pre + suf == pre;
    } else {
      var init, last := suf[..|suf| - 1], suf[|suf| - 1];
      assert forall k | 0 <= k < |init| :: init[k] == suf[k];
      assert suf == init + [last];
      InsertPosition(e, pre, init);
      InsertPositionStep(e, pre, init, last);
    }
  }

  /** The inductive step of InsertPosition: a weaker element after suf. */
  lemma InsertPositionStep(e: Scored, pre: seq<Scored>, init: seq<Scored>, last: Scored)
    requires InsertDesc(e, pre + init) == pre + [e] + init && last.strength < e.strength
    ensures InsertDesc(e, pre + (init + [last])) == pre + [e] + (init + [last])
  {
    InsertPastWeaker(e, pre + init, last);
    Regroup(pre, init, last);
    Regroup(pre + [e], init, last);
  }

  lemma Regroup<T>(a: seq<T>, b: seq<T>, x: T)
    ensures (a + b) + [x] == a + (b + [x])
  {
  }

  /** e goes before a weaker last element. */
  lemma InsertPastWeaker(e: Scored, t: seq<Scored>, last: Scored)
    requires last.strength < e.strength
    ensures InsertDesc(e, t + [last]) == InsertDesc(e, t) + [last]
  {
    assert (t + [last])[..|t|] == t;
  }

  /** The first n of the sorted candidates: each is a candidate, they are
      strongest first, and a candidate left out is no stronger than any of
      them. */
  lemma TopStrongest(s: seq<Scored>, n: nat)
    ensures var top := Take(SortDesc(s), n);
      && |top| <= n
      && (forall x | x in top :: x in s)
      && ByStrength(top)
      && forall e | e in s && e !in top :: forall k | 0 <= k < |top| :: top[k].strength >= e.strength
  {
    var sorted := SortDesc(s);
    var top := Take(sorted, n);
    SortOrdered(s);
    forall x | x in top ensures x in s {
      assert x in multiset(sorted);
    }
    forall e | e in s && e !in top ensures forall k | 0 <= k < |top| :: top[k].strength >= e.strength {
      assert e in multiset(sorted);
      var idx :| 0 <= idx < |sorted| && sorted[idx] == e;
      assert idx >= |top|;
    }
  }
}
