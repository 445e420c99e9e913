/**
 * Series.value_counts() and Series.mode(): the distinct non-missing values of a
 * column with their frequencies, most frequent first, ties in first-seen order.
 */
module EdaValueCounts {
  import opened Wrappers
  import opened EdaTable

  /** A distinct value and the number of times it occurs. */
  type Entry<T> = (T, nat)

  function Keys<T>(t: seq<Entry<T>>): (r: seq<T>)
    ensures |r| == |t| && forall i | 0 <= i < |t| :: r[i] == t[i].0
  {
    seq(|t|, i requires 0 <= i < |t| => t[i].0)
  }

  ghost predicate KeysDistinct<T>(t: seq<Entry<T>>) {
    forall i, j | 0 <= i < j < |t| :: t[i].0 != t[j].0
  }

  /** Counts never increase along the sequence. */
  predicate Descending<T>(t: seq<Entry<T>>) {
    forall i, j | 0 <= i < j < |t| :: t[i].1 >= t[j].1
  }

  function SumCounts<T>(t: seq<Entry<T>>): nat {
    if t == [] then 0 else t[0].1 + SumCounts(t[1..])
  }

  /** t tallies s: its keys are distinct, they are exactly the values of s, and
      each count is the number of occurrences of its key. */
  ghost predicate Tallies<T(!new)>(t: seq<Entry<T>>, s: seq<T>) {
    && KeysDistinct(t)
    && (forall x :: x in Keys(t) <==> x in s)
    && (forall i | 0 <= i < |t| :: t[i].1 == multiset(s)[t[i].0])
  }

  /** Adds one occurrence of x: increments its entry, or appends a new one. */
  function Bump<T(==,!new)>(t: seq<Entry<T>>, x: T): (r: seq<Entry<T>>)
    requires KeysDistinct(t)
    ensures KeysDistinct(r)
    ensures Keys(r) == if x in Keys(t) then Keys(t) else Keys(t) + [x]
    ensures forall i | 0 <= i < |r| :: r[i].1 == (if i < |t| then t[i].1 else 0) + (if r[i].0 == x then 1 else 0)
  {
    if x in Keys(t) then
      var i := IndexOf(Keys(t), x);
      var r := t[i := (x, t[i].1 + 1)];
      assert Keys(r) == Keys(t);
      r
    else
      var r := t + [(x, 1)];
      assert Keys(r) == Keys(t) + [x];
      assert forall i | 0 <= i < |t| :: t[i].0 in Keys(t);
      r
  }

  /** The hash-table pass over the values: distinct values in order of first
      occurrence, each with its count. */
  function Tally<T(==,!new)>(s: seq<T>): (r: seq<Entry<T>>)
    ensures KeysDistinct(r)
  {
    if s == [] then [] else Bump(Tally(s[..|s| - 1]), s[|s| - 1])
  }

  lemma {:induction false} TallyTallies<T(!new)>(s: seq<T>)
    ensures Tallies(Tally(s), s)
  {
    if s != [] {
      var init, x := s[..|s| - 1], s[|s| - 1];
      assert s == init + [x];
      TallyTallies(init);
      var t, r := Tally(init), Tally(s);
      assert multiset(s) == multiset(init) + multiset{x};
      forall i, j | 0 <= i < j < |r| ensures r[i].0 != r[j].0 {
        assert Keys(r)[i] == r[i].0 && Keys(r)[j] == r[j].0;
        if j >= |t| {
          assert x !in Keys(t) && r[j].0 == x && r[i].0 == Keys(t)[i];
        } else {
          assert Keys(t)[i] == r[i].0 && Keys(t)[j] == r[j].0;
        }
      }
      forall y ensures y in Keys(r) <==> y in s {
        assert y in s <==> y in init || y == x;
      }
      forall i | 0 <= i < |r| ensures r[i].1 == multiset(s)[r[i].0] {
        if i < |t| {
          assert Keys(t)[i] == Keys(r)[i];
        } else {
          assert x !in Keys(t) && x !in init;
        }
      }
    }
  }

  /** Puts e in front of the first entry whose count is not larger, so that
      entries with equal counts keep their order. */
  function InsertByCount<T(==,!new)>(e: Entry<T>, t: seq<Entry<T>>): (r: seq<Entry<T>>)
    ensures |r| == |t| + 1 && multiset(r) == multiset(t) + multiset{e}
    ensures SumCounts(r) == SumCounts(t) + e.1
    ensures Descending(t) ==> Descending(r)
  {
    if t == [] || t[0].1 <= e.1 then
      FirstBounds(e, t);
      PrependDescending(e, t);
      PrependEntry(e, t);
      [e] + t
    else
      var tail := InsertByCount(e, t[1..]);
      assert t == [t[0]] + t[1..];
      CountsBelow(t[0], e, t[1..], tail);
      PrependDescending(t[0], tail);
      PrependEntry(t[0], tail);
      [t[0]] + tail
  }

  lemma PrependEntry<T>(e: Entry<T>, t: seq<Entry<T>>)
    ensures SumCounts([e] + t) == SumCounts(t) + e.1
    ensures multiset([e] + t) == multiset(t) + multiset{e}
  {
    assert ([e] + t)[1..] == t;
  }

  /** In a descending table, an entry at least as large as the first is at
      least as large as all. */
  lemma FirstBounds<T>(e: Entry<T>, t: seq<Entry<T>>)
    requires t == [] || t[0].1 <= e.1
    ensures Descending(t) ==> forall y | y in t :: y.1 <= e.1
  {
    if Descending(t) && t != [] {
      forall y | y in t ensures y.1 <= e.1 {
        var i :| 0 <= i < |t| && t[i] == y;
        assert t[0].1 >= t[i].1;
      }
    }
  }

  lemma CountsBelow<T>(b: Entry<T>, e: Entry<T>, t: seq<Entry<T>>, r: seq<Entry<T>>)
    requires e.1 <= b.1 && multiset(r) == multiset(t) + multiset{e}
    ensures (forall y | y in t :: y.1 <= b.1) ==> forall y | y in r :: y.1 <= b.1
  {
    if forall y | y in t :: y.1 <= b.1 {
      forall y | y in r ensures y.1 <= b.1 {
        assert y in multiset(r);
        assert y in multiset(t) || y == e;
        if y in multiset(t) {
          assert y in t;
        }
      }
    }
  }

  lemma PrependDescending<T>(e: Entry<T>, t: seq<Entry<T>>)
    ensures Descending(t) && (forall y | y in t :: y.1 <= e.1) ==> Descending([e] + t)
  {
    var r := [e] + t;
    if Descending(t) && forall y | y in t :: y.1 <= e.1 {
      forall i, j | 0 <= i < j < |r| ensures r[i].1 >= r[j].1 {
        assert r[j] == t[j - 1] && t[j - 1] in t;
        if i > 0 {
          assert r[i] == t[i - 1];
        }
      }
    }
  }

  /** Stable sort by count, largest first. */
  function SortByCount<T(==,!new)>(t: seq<Entry<T>>): (r: seq<Entry<T>>)
    ensures |r| == |t| && multiset(r) == multiset(t)
    ensures SumCounts(r) == SumCounts(t)
    ensures Descending(r)
  {
    if t == [] then []
    else
      assert t == [t[0]] + t[1..];
      InsertByCount(t[0], SortByCount(t[1..]))
  }

  /** Series.value_counts(): missing values are already dropped from s. */
  function ValueCounts<T(==,!new)>(s: seq<T>): seq<Entry<T>> {
    SortByCount(Tally(s))
  }

  // ---------------------------------------------------------------------------
  // What value_counts promises
  // ---------------------------------------------------------------------------

  /** The frequency table lists every distinct value once, with its number of
      occurrences, most frequent first; its length is the number of distinct
      values and its counts add up to the number of values. */
  lemma ValueCountsCorrect<T(!new)>(s: seq<T>)
    ensures var vc := ValueCounts(s);
      && Tallies(vc, s)
      && Descending(vc)
      && |vc| == |set x | x in s|
      && SumCounts(vc) == |s|
      && forall i | 0 <= i < |vc| :: vc[i].1 >= 1
  {
    var t := Tally(s);
    var vc := ValueCounts(s);
    TallyTallies(s);
    TalliesPermuted(t, vc, s);
    TallySum(s);
    DistinctLength(vc, s);
    forall i | 0 <= i < |vc| ensures vc[i].1 >= 1 {
      assert Keys(vc)[i] in s;
    }
  }

  lemma TalliesPermuted<T(!new)>(t: seq<Entry<T>>, r: seq<Entry<T>>, s: seq<T>)
    requires Tallies(t, s) && multiset(r) == multiset(t)
    ensures Tallies(r, s)
  {
    forall p ensures p in r <==> p in t {
      assert p in r <==> p in multiset(r);
      assert p in t <==> p in multiset(t);
    }
    forall i | 0 <= i < |r| ensures r[i].1 == multiset(s)[r[i].0] {
      assert r[i] in t;
      var k :| 0 <= k < |t| && t[k] == r[i];
    }
    forall i, j | 0 <= i < j < |r| ensures r[i].0 != r[j].0 {
      if r[i].0 == r[j].0 {
        assert r[i] in r && r[j] in r;
        var a :| 0 <= a < |t| && t[a] == r[i];
        var b :| 0 <= b < |t| && t[b] == r[j];
        assert a == b;
        assert r[i] == r[j];
        MultiplicityTwo(r, i, j);
        OnceInDistinct(t, a);
      }
    }
    forall x ensures x in Keys(r) <==> x in s {
      if x in Keys(r) {
        var i :| 0 <= i < |r| && Keys(r)[i] == x;
        assert r[i] in r;
        var k :| 0 <= k < |t| && t[k] == r[i];
        assert Keys(t)[k] == x;
      }
      if x in s {
        assert x in Keys(t);
        var k :| 0 <= k < |t| && Keys(t)[k] == x;
        assert t[k] in t;
        var i :| 0 <= i < |r| && r[i] == t[k];
        assert Keys(r)[i] == x;
      }
    }
  }

  lemma MultiplicityTwo<T>(r: seq<T>, i: nat, j: nat)
    requires i < j < |r| && r[i] == r[j]
    ensures multiset(r)[r[i]] >= 2
  {
    var x := r[i];
    assert r == r[..i] + [x] + r[i + 1..j] + [x] + r[j + 1..];
  }

  lemma OnceInDistinct<T(!new)>(t: seq<Entry<T>>, a: nat)
    requires KeysDistinct(t) && a < |t|
    ensures multiset(t)[t[a]] == 1
  {
    var p := t[a];
    assert t == t[..a] + [p] + t[a + 1..];
    assert p !in t[..a];
    assert p !in t[a + 1..];
  }

  lemma {:induction false} TallySum<T(!new)>(s: seq<T>)
    ensures SumCounts(Tally(s)) == |s|
  {
    if s != [] {
      TallySum(s[..|s| - 1]);
      BumpSum(Tally(s[..|s| - 1]), s[|s| - 1]);
    }
  }

  lemma BumpSum<T(!new)>(t: seq<Entry<T>>, x: T)
    requires KeysDistinct(t)
    ensures SumCounts(Bump(t, x)) == SumCounts(t) + 1
  {
    if x in Keys(t) {
      var i := IndexOf(Keys(t), x);
      SumUpdate(t, i, (x, t[i].1 + 1));
    } else {
      SumAppend(t, (x, 1));
    }
  }

  lemma {:induction false} SumUpdate<T>(t: seq<Entry<T>>, i: nat, e: Entry<T>)
    requires i < |t|
    ensures SumCounts(t[i := e]) + t[i].1 == SumCounts(t) + e.1
  {
    if i > 0 {
      SumUpdate(t[1..], i - 1, e);
      assert t[i := e][1..] == t[1..][i - 1 := e];
    }
  }

  lemma {:induction false} SumAppend<T>(t: seq<Entry<T>>, e: Entry<T>)
    ensures SumCounts(t + [e]) == SumCounts(t) + e.1
  {
    if t != [] {
      SumAppend(t[1..], e);
      assert (t + [e])[1..] == t[1..] + [e];
    }
  }

  /** A table with distinct keys has one entry per distinct value. */
  lemma DistinctLength<T(!new)>(t: seq<Entry<T>>, s: seq<T>)
    requires KeysDistinct(t) && forall x :: x in Keys(t) <==> x in s
    ensures |t| == |set x | x in s|
  {
    assert (set x | x in s) == (set x | x in Keys(t));
    DistinctSeqCard(Keys(t));
  }

  lemma {:induction false} DistinctSeqCard<T>(k: seq<T>)
    requires forall i, j | 0 <= i < j < |k| :: k[i] != k[j]
    ensures |set x | x in k| == |k|
  {
    if k != [] {
      var init, last := k[..|k| - 1], k[|k| - 1];
      DistinctSeqCard(init);
      assert k == init + [last];
      ElementsSnoc(init, last);
      assert last !in init;
    }
  }

  /** The highest count in a non-empty table is its first entry. */
  lemma FirstIsMostFrequent<T(!new)>(s: seq<T>, y: T)
    requires y in s
    ensures var vc := ValueCounts(s);
      |vc| > 0 && multiset(s)[y] <= vc[0].1
  {
    var vc := ValueCounts(s);
    ValueCountsCorrect(s);
    var i :| 0 <= i < |vc| && Keys(vc)[i] == y;
    assert vc[0].1 >= vc[i].1;
  }

  /** value_counts().head(k): min(k, distinct) entries, most frequent first,
      each a distinct value of s with its number of occurrences. */
  lemma TopCounts<T(!new)>(s: seq<T>, k: nat)
    ensures var top := Take(ValueCounts(s), k);
      && |top| == Min(k, |set x | x in s|)
      && Descending(top)
      && KeysDistinct(top)
      && forall i | 0 <= i < |top| :: top[i].0 in s && top[i].1 == multiset(s)[top[i].0]
  {
    ValueCountsCorrect(s);
    PrefixOfTable(ValueCounts(s), s, k);
  }

  lemma PrefixOfTable<T(!new)>(vc: seq<Entry<T>>, s: seq<T>, k: nat)
    requires Tallies(vc, s) && Descending(vc)
    ensures var top := Take(vc, k);
      && Descending(top)
      && KeysDistinct(top)
      && forall i | 0 <= i < |top| :: top[i].0 in s && top[i].1 == multiset(s)[top[i].0]
  {
    var top := Take(vc, k);
    forall i | 0 <= i < |top| ensures top[i].0 in s && top[i].1 == multiset(s)[top[i].0] {
      assert top[i] == vc[i];
      assert Keys(vc)[i] == vc[i].0;
    }
  }

  /** value_counts().head(k) shows the most frequent values: a value left out
      occurs at most as often as every value shown. */
  lemma TopIsMostFrequent<T(!new)>(s: seq<T>, k: nat, w: T)
    requires w in s
    ensures var top := Take(ValueCounts(s), k);
      w !in Keys(top) ==> forall i | 0 <= i < |top| :: multiset(s)[w] <= top[i].1
  {
    ValueCountsCorrect(s);
    HeadOfTable(ValueCounts(s), s, k, w);
  }

  /** The same for any descending table of s. */
  lemma HeadOfTable<T(!new)>(vc: seq<Entry<T>>, s: seq<T>, k: nat, w: T)
    requires Tallies(vc, s) && Descending(vc) && w in s
    ensures var top := Take(vc, k);
      w !in Keys(top) ==> forall i | 0 <= i < |top| :: multiset(s)[w] <= top[i].1
  {
    var top := Take(vc, k);
    if w !in Keys(top) {
      var m :| 0 <= m < |vc| && Keys(vc)[m] == w;
      forall i | 0 <= i < |top| ensures multiset(s)[w] <= top[i].1 {
        assert top[i] == vc[i];
      }
    }
  }

  // ---------------------------------------------------------------------------
  // Series.mode() on text values
  // ---------------------------------------------------------------------------

  /** Python's ordering of str values: lexicographic by code point. */
  predicate LexLe(a: string, b: string) {
    if a == [] then true
    else if b == [] then false
    else if a[0] != b[0] then a[0] < b[0]
    else LexLe(a[1..], b[1..])
  }

  lemma {:induction false} LexTotal(a: string, b: string)
    ensures LexLe(a, b) || LexLe(b, a)
    ensures LexLe(a, b) && LexLe(b, a) ==> a == b
  {
    if a != [] && b != [] && a[0] == b[0] {
      LexTotal(a[1..], b[1..]);
      assert a == [a[0]] + a[1..] && b == [b[0]] + b[1..];
    }
  }

  lemma {:induction false} LexTransitive(a: string, b: string, c: string)
    requires LexLe(a, b) && LexLe(b, c)
    ensures LexLe(a, c)
  {
    if a != [] && b != [] && c != [] && a[0] == b[0] && b[0] == c[0] {
      LexTransitive(a[1..], b[1..], c[1..]);
    }
  }

  /** The smallest string of a non-empty sequence. */
  function LeastString(s: seq<string>): (r: string)
    requires |s| > 0
    ensures r in s && forall y | y in s :: LexLe(r, y)
  {
    if |s| == 1 then
      LexTotal(s[0], s[0]);
      s[0]
    else
      var m := LeastString(s[1..]);
      assert forall y | y in s :: y == s[0] || y in s[1..];
      LexTotal(s[0], m);
      LexTotal(s[0], s[0]);
      if LexLe(s[0], m) then
        assert forall y | y in s[1..] :: LexLe(s[0], y) by {
          forall y | y in s[1..] ensures LexLe(s[0], y) {
            LexTransitive(s[0], m, y);
          }
        }
        s[0]
      else
        m
  }

  /** The keys of the leading entries whose count equals the first count. */
  function TopKeys<T>(t: seq<Entry<T>>, top: nat): (r: seq<T>)
    ensures forall x | x in r :: exists i | 0 <= i < |t| :: t[i].0 == x && t[i].1 == top
    ensures forall i | 0 <= i < |t| && t[i].1 == top :: t[i].0 in r
  {
    if t == [] then []
    else
      var rest := TopKeys(t[1..], top);
      assert forall i | 1 <= i < |t| :: t[i] == t[1..][i - 1];
      if t[0].1 == top then [t[0].0] + rest else rest
  }

  /** Series.mode()[0] on text values: of the most frequent values, the least
      in Python's string order; None when there are no values. */
  function Mode(s: seq<string>): (r: Option<string>)
    ensures r.None? <==> s == []
  {
    var vc := ValueCounts(s);
    if s == [] then None
    else
      ValueCountsCorrect(s);
      var top := TopKeys(vc, vc[0].1);
      assert vc[0].0 in top;
      Some(LeastString(top))
  }

  /** The mode is a value of the column, no value occurs more often, and of
      the values that occur as often it is the least string. */
  lemma ModeCorrect(s: seq<string>)
    requires s != []
    ensures var m := Mode(s).value;
      && m in s
      && (forall y | y in s :: multiset(s)[y] <= multiset(s)[m])
      && (forall y | y in s && multiset(s)[y] == multiset(s)[m] :: LexLe(m, y))
  {
    var vc := ValueCounts(s);
    ValueCountsCorrect(s);
    TopOfTable(vc, s);
  }

  lemma TopOfTable(vc: seq<Entry<string>>, s: seq<string>)
    requires Tallies(vc, s) && Descending(vc) && |vc| > 0
    ensures var m := LeastString(TopKeys(vc, vc[0].1));
      && m in s
      && (forall y | y in s :: multiset(s)[y] <= multiset(s)[m])
      && (forall y | y in s && multiset(s)[y] == multiset(s)[m] :: LexLe(m, y))
  {
    var top := TopKeys(vc, vc[0].1);
    var m := LeastString(top);
    var i :| 0 <= i < |vc| && vc[i].0 == m && vc[i].1 == vc[0].1;
    assert Keys(vc)[i] == m;
    forall y | y in s ensures multiset(s)[y] <= multiset(s)[m] {
      assert y in Keys(vc);
      var k :| 0 <= k < |vc| && Keys(vc)[k] == y;
      assert vc[0].1 >= vc[k].1;
    }
    forall y | y in s && multiset(s)[y] == multiset(s)[m] ensures LexLe(m, y) {
      assert y in Keys(vc);
      var k :| 0 <= k < |vc| && Keys(vc)[k] == y;
      assert vc[k].1 == vc[0].1;
    }
  }
}
