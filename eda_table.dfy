/**
 * The in-memory table that every part of the analysis engine reads: an ordered
 * sequence of named columns of equal length, each of one inferred dtype family.
 */
module EdaTable {
  import opened Wrappers

  /** The dtype family pandas infers for a column. Other stands for datetime,
      timedelta and category columns, whose values the model keeps as text. */
  datatype Kind = Numeric | Boolean | Object | Other

  datatype Datum = Number(x: real) | Text(s: string)

  /** One cell; None is a missing value (NaN, None or NaT). */
  type Cell = Option<Datum>

  datatype Column = Column(name: string, kind: Kind, cells: seq<Cell>)

  datatype Table = Table(rows: nat, columns: seq<Column>)

  /** What a cell of a column of kind k can hold: numbers in numeric columns,
      0 or 1 (and never a missing value) in Boolean ones, text elsewhere. */
  predicate Fits(k: Kind, c: Cell) {
    match k
    case Numeric => c.None? || c.value.Number?
    case Boolean => c.Some? && c.value.Number? && (c.value.x == 0.0 || c.value.x == 1.0)
    case _ => c.None? || c.value.Text?
  }

  predicate ValidColumn(c: Column, rows: nat) {
    |c.cells| == rows && forall i | 0 <= i < |c.cells| :: Fits(c.kind, c.cells[i])
  }

  predicate DistinctNames(cols: seq<Column>) {
    forall i, j | 0 <= i < j < |cols| :: cols[i].name != cols[j].name
  }

  /** Every column has one cell per row, holds values of its kind, and no two
      columns share a name. */
  predicate Valid(t: Table) {
    && DistinctNames(t.columns)
    && forall j | 0 <= j < |t.columns| :: ValidColumn(t.columns[j], t.rows)
  }

  function Names(cols: seq<Column>): (r: seq<string>)
    ensures |r| == |cols|
    ensures forall j | 0 <= j < |cols| :: r[j] == cols[j].name
  {
    seq(|cols|, j requires 0 <= j < |cols| => cols[j].name)
  }

  /** pandas.api.types.is_numeric_dtype: true for numbers and for booleans. */
  predicate IsNumericDtype(k: Kind) {
    k == Numeric || k == Boolean
  }

  /** The columns that DataFrame.select_dtypes(include=[np.number]) keeps, in
      table order; booleans are not among them. */
  function NumberColumns(cols: seq<Column>): (r: seq<Column>)
    ensures |r| <= |cols|
    ensures forall c | c in r :: c in cols && c.kind == Numeric
    ensures forall c | c in cols && c.kind == Numeric :: c in r
  {
    if cols == [] then []
    else
      var rest := NumberColumns(cols[..|cols| - 1]);
      var last := cols[|cols| - 1];
      assert cols == cols[..|cols| - 1] + [last];
      if last.kind == Numeric then rest + [last] else rest
  }

  /** The columns that DataFrame.select_dtypes(include=['object']) keeps. */
  function ObjectColumns(cols: seq<Column>): (r: seq<Column>)
    ensures |r| <= |cols|
    ensures forall c | c in r :: c in cols && c.kind == Object
    ensures forall c | c in cols && c.kind == Object :: c in r
  {
    if cols == [] then []
    else
      var rest := ObjectColumns(cols[..|cols| - 1]);
      var last := cols[|cols| - 1];
      assert cols == cols[..|cols| - 1] + [last];
      if last.kind == Object then rest + [last] else rest
  }

  /** The first k elements of s (Python's s[:k]). */
  function Take<T>(s: seq<T>, k: nat): (r: seq<T>)
    ensures |r| == Min(k, |s|) && r == s[..|r|]
  {
    if k < |s| then s[..k] else s
  }

  /** The elements of s that satisfy p, in their order (a list comprehension
      with a condition). */
  function Filter<T>(s: seq<T>, p: T -> bool): (r: seq<T>)
    ensures |r| <= |s|
    ensures forall x | x in r :: x in s && p(x)
    ensures forall i | 0 <= i < |s| && p(s[i]) :: s[i] in r
  {
    if s == [] then []
    else
      var rest := Filter(s[..|s| - 1], p);
      var last := s[|s| - 1];
      assert s == s[..|s| - 1] + [last];
      if p(last) then rest + [last] else rest
  }

  lemma FilterSnoc<T>(s: seq<T>, x: T, p: T -> bool)
    ensures Filter(s + [x], p) == if p(x) then Filter(s, p) + [x] else Filter(s, p)
  {
    assert (s + [x])[..|s|] == s;
  }

  /** The values g has at the elements of s, in order, skipping the elements
      where it has none. */
  function Somes<T, U>(s: seq<T>, g: T -> Option<U>): seq<U> {
    if s == [] then []
    else
      var y := g(s[|s| - 1]);
      Somes(s[..|s| - 1], g) + (if y.Some? then [y.value] else [])
  }

  lemma SomesSnoc<T, U>(s: seq<T>, j: nat, g: T -> Option<U>)
    requires j < |s|
    ensures var y := g(s[j]);
      Somes(s[..j + 1], g) == Somes(s[..j], g) + (if y.Some? then [y.value] else [])
  {
    assert s[..j + 1][..j] == s[..j];
  }

  /** When p marks the elements where g has a value, Somes lists g's values
      at the elements Filter keeps, one for one and in the same order. */
  lemma {:induction false} SomesInOrder<T, U>(s: seq<T>, g: T -> Option<U>, p: T -> bool)
    requires forall x | x in s :: g(x).Some? == p(x)
    ensures var r, f := Somes(s, g), Filter(s, p);
      && |r| == |f|
      && forall k | 0 <= k < |f| :: g(f[k]) == Some(r[k])
  {
    if s != [] {
      var init, x := s[..|s| - 1], s[|s| - 1];
      assert s == init + [x];
      assert forall y | y in init :: y in s;
      SomesInOrder(init, g, p);
      FilterSnoc(init, x, p);
      if p(x) {
        var r0, f0 := Somes(init, g), Filter(init, p);
        var r, f := r0 + [g(x).value], f0 + [x];
        forall k | 0 <= k < |f| ensures g(f[k]) == Some(r[k]) {
          if k < |f0| {
            assert f[k] == f0[k] && r[k] == r0[k];
          }
        }
      }
    }
  }

  lemma NamesSnoc(cols: seq<Column>, c: Column)
    ensures Names(cols + [c]) == Names(cols) + [c.name]
  {
  }

  /** Filtering a concatenation filters each part: the kept elements stay in
      their original order. */
  lemma {:induction false} FilterAppend<T>(a: seq<T>, b: seq<T>, p: T -> bool)
    ensures Filter(a + b, p) == Filter(a, p) + Filter(b, p)
  {
    if b != [] {
      var b' := b[..|b| - 1];
      assert (a + b)[..|a + b| - 1] == a + b';
      FilterAppend(a, b', p);
    } else {
      assert a + b == a;
    }
  }

  /** Filtering keeps every occurrence of a kept value, duplicates included. */
  lemma {:induction false} FilterCounts<T>(s: seq<T>, p: T -> bool, x: T)
    ensures multiset(Filter(s, p))[x] == if p(x) then multiset(s)[x] else 0
  {
    if s != [] {
      var init := s[..|s| - 1];
      FilterCounts(init, p, x);
      assert s == init + [s[|s| - 1]];
    }
  }

  /** Where x first occurs in s (list.index). */
  function IndexOf<T(==)>(s: seq<T>, x: T): (i: nat)
    requires x in s
    ensures i < |s| && s[i] == x && x !in s[..i]
  {
    if s[0] == x then 0 else 1 + IndexOf(s[1..], x)
  }

  lemma IndexOfPrefix<T>(a: seq<T>, y: T, x: T)
    requires x in a
    ensures IndexOf(a + [y], x) == IndexOf(a, x)
  {
    var i, k := IndexOf(a + [y], x), IndexOf(a, x);
    assert (a + [y])[k] == x;
  }

  /** What Filter keeps of a sequence without repetitions comes in the order of
      the sequence. */
  lemma {:induction false} FilterKeepsOrder<T>(s: seq<T>, p: T -> bool)
    requires forall i, j | 0 <= i < j < |s| :: s[i] != s[j]
    ensures forall i, j | 0 <= i < j < |Filter(s, p)| :: IndexOf(s, Filter(s, p)[i]) < IndexOf(s, Filter(s, p)[j])
  {
    if s != [] {
      var init, last := s[..|s| - 1], s[|s| - 1];
      assert s == init + [last];
      FilterKeepsOrder(init, p);
      var r, r0 := Filter(s, p), Filter(init, p);
      forall x | x in r0 ensures IndexOf(s, x) == IndexOf(init, x) {
        IndexOfPrefix(init, last, x);
      }
      if p(last) {
        assert last !in init;
        assert IndexOf(s, last) == |s| - 1;
        forall i, j | 0 <= i < j < |r| ensures IndexOf(s, r[i]) < IndexOf(s, r[j]) {
          assert r[i] == r0[i] && r[i] in r0;
          if j < |r0| {
            assert r[j] == r0[j] && r[j] in r0;
          }
        }
      } else {
        forall i, j | 0 <= i < j < |r| ensures IndexOf(s, r[i]) < IndexOf(s, r[j]) {
          assert r == r0;
          assert r0[i] in r0 && r0[j] in r0;
          assert IndexOf(init, r0[i]) < IndexOf(init, r0[j]);
        }
      }
    }
  }

  /** a can be obtained from b by deleting elements: a keeps b's order. */
  ghost predicate Subsequence<T>(a: seq<T>, b: seq<T>)
    decreases |b|
  {
    a == [] ||
    (b != [] &&
     ((a[|a| - 1] == b[|b| - 1] && Subsequence(a[..|a| - 1], b[..|b| - 1])) ||
      Subsequence(a, b[..|b| - 1])))
  }

  /** What Filter keeps comes in the order of the input. */
  lemma {:induction false} FilterSubsequence<T>(s: seq<T>, p: T -> bool)
    ensures Subsequence(Filter(s, p), s)
  {
    if s != [] {
      var init := s[..|s| - 1];
      FilterSubsequence(init, p);
      FilterSnoc(init, s[|s| - 1], p);
      assert s == init + [s[|s| - 1]];
      if p(s[|s| - 1]) {
        var r := Filter(s, p);
        assert r[..|r| - 1] == Filter(init, p);
      }
    }
  }

  /** A prefix of a subsequence is a subsequence. */
  lemma {:induction false} PrefixSubsequence<T>(a: seq<T>, b: seq<T>, k: nat)
    requires k <= |a| && Subsequence(a, b)
    ensures Subsequence(a[..k], b)
    decreases |b|
  {
    if k == |a| {
      assert a[..k] == a;
    } else if k == 0 {
      assert a[..k] == [];
    } else {
      var a', b' := a[..|a| - 1], b[..|b| - 1];
      if a[|a| - 1] == b[|b| - 1] && Subsequence(a', b') {
        PrefixSubsequence(a', b', k);
        assert a'[..k] == a[..k];
      } else {
        PrefixSubsequence(a, b', k);
      }
    }
  }

  lemma {:induction false} SubsequenceTransitive<T>(a: seq<T>, b: seq<T>, c: seq<T>)
    requires Subsequence(a, b) && Subsequence(b, c)
    ensures Subsequence(a, c)
    decreases |c|
  {
    if a != [] {
      var a', b', c' := a[..|a| - 1], b[..|b| - 1], c[..|c| - 1];
      if b[|b| - 1] == c[|c| - 1] && Subsequence(b', c') {
        if a[|a| - 1] == b[|b| - 1] && Subsequence(a', b') {
          SubsequenceTransitive(a', b', c');
        } else {
          SubsequenceTransitive(a, b', c');
        }
      } else {
        SubsequenceTransitive(a, b, c');
      }
    }
  }

  lemma {:induction false} ObjectColumnsSubsequence(cols: seq<Column>)
    ensures Subsequence(ObjectColumns(cols), cols)
  {
    if cols != [] {
      var init := cols[..|cols| - 1];
      ObjectColumnsSubsequence(init);
      if cols[|cols| - 1].kind == Object {
        var r := ObjectColumns(cols);
        assert r[..|r| - 1] == ObjectColumns(init);
      }
    }
  }

  /** Filter keeps everything when every element qualifies. */
  lemma {:induction false} FilterAll<T>(s: seq<T>, p: T -> bool)
    requires forall x | x in s :: p(x)
    ensures Filter(s, p) == s
  {
    if s != [] {
      var init := s[..|s| - 1];
      FilterAll(init, p);
      assert s == init + [s[|s| - 1]];
    }
  }

  /** Series.isna().sum() */
  function MissingCount(cells: seq<Cell>): (r: nat)
    ensures r <= |cells|
  {
    if cells == [] then 0
    else MissingCount(cells[..|cells| - 1]) + (if cells[|cells| - 1].None? then 1 else 0)
  }

  /** Series.dropna(): the non-missing values, in row order. */
  function Present(cells: seq<Cell>): (r: seq<Datum>)
    ensures |r| + MissingCount(cells) == |cells|
    ensures forall d | d in r :: Some(d) in cells
    ensures forall i | 0 <= i < |cells| && cells[i].Some? :: cells[i].value in r
  {
    if cells == [] then []
    else
      var rest := Present(cells[..|cells| - 1]);
      var last := cells[|cells| - 1];
      assert cells == cells[..|cells| - 1] + [last];
      if last.Some? then rest + [last.value] else rest
  }

  /** The numbers among the non-missing values of a column, in row order. */
  function Numbers(cells: seq<Cell>): (r: seq<real>)
    ensures |r| <= |cells|
  {
    if cells == [] then []
    else
      var rest := Numbers(cells[..|cells| - 1]);
      var last := cells[|cells| - 1];
      if last.Some? && last.value.Number? then rest + [last.value.x] else rest
  }

  /** Whether a column holds at least one number. */
  function HasNumbers(): Column -> bool {
    (c: Column) => Numbers(c.cells) != []
  }

  /** The texts among the non-missing values of a column, in row order. */
  function Texts(cells: seq<Cell>): (r: seq<string>)
    ensures |r| <= |cells|
  {
    if cells == [] then []
    else
      var rest := Texts(cells[..|cells| - 1]);
      var last := cells[|cells| - 1];
      if last.Some? && last.value.Text? then rest + [last.value.s] else rest
  }

  /** The distinct non-missing values of a column. */
  function Distinct(cells: seq<Cell>): set<Datum> {
    set d | d in Present(cells)
  }

  /** Series.nunique(): missing values are not counted. */
  function DistinctCount(cells: seq<Cell>): nat {
    |Distinct(cells)|
  }

  /** count / rows * 100 as numpy computes it; 0 / 0 is NaN, here None. */
  function Percentage(count: nat, rows: nat): (r: Option<real>)
    ensures r.Some? <==> rows > 0
  {
    if rows == 0 then None else Some(count as real / rows as real * 100.0)
  }

  // ---------------------------------------------------------------------------
  // Facts about the helpers above
  // ---------------------------------------------------------------------------

  /** Every column of a valid table holds values of its kind. */
  lemma ColumnFits(t: Table, c: Column)
    requires Valid(t) && c in t.columns
    ensures forall i | 0 <= i < |c.cells| :: Fits(c.kind, c.cells[i])
  {
    var j :| 0 <= j < |t.columns| && t.columns[j] == c;
    assert ValidColumn(t.columns[j], t.rows);
  }

  /** The numbers xs as values of a column. */
  function AsNumbers(xs: seq<real>): (r: seq<Datum>)
    ensures |r| == |xs| && forall i | 0 <= i < |xs| :: r[i] == Number(xs[i])
  {
    if xs == [] then [] else AsNumbers(xs[..|xs| - 1]) + [Number(xs[|xs| - 1])]
  }

  /** The texts ss as values of a column. */
  function AsTexts(ss: seq<string>): (r: seq<Datum>)
    ensures |r| == |ss| && forall i | 0 <= i < |ss| :: r[i] == Text(ss[i])
  {
    if ss == [] then [] else AsTexts(ss[..|ss| - 1]) + [Text(ss[|ss| - 1])]
  }

  /** In a numeric-dtype column the numbers are exactly the non-missing values,
      and in a text column the texts are. */
  lemma NumbersArePresent(k: Kind, cells: seq<Cell>)
    requires forall i | 0 <= i < |cells| :: Fits(k, cells[i])
    ensures IsNumericDtype(k) ==> Present(cells) == AsNumbers(Numbers(cells))
    ensures !IsNumericDtype(k) ==> Present(cells) == AsTexts(Texts(cells))
  {
    if IsNumericDtype(k) {
      PresentNumbers(k, cells);
    } else {
      PresentTexts(k, cells);
    }
  }

  lemma {:induction false} PresentNumbers(k: Kind, cells: seq<Cell>)
    requires IsNumericDtype(k) && forall i | 0 <= i < |cells| :: Fits(k, cells[i])
    ensures Present(cells) == AsNumbers(Numbers(cells))
  {
    if cells != [] {
      var init, c := cells[..|cells| - 1], cells[|cells| - 1];
      PresentNumbers(k, init);
      if c.Some? {
        var xs := Numbers(init) + [c.value.x];
        assert Numbers(cells) == xs && xs[..|xs| - 1] == Numbers(init);
      }
    }
  }

  lemma {:induction false} PresentTexts(k: Kind, cells: seq<Cell>)
    requires !IsNumericDtype(k) && forall i | 0 <= i < |cells| :: Fits(k, cells[i])
    ensures Present(cells) == AsTexts(Texts(cells))
  {
    if cells != [] {
      var init, c := cells[..|cells| - 1], cells[|cells| - 1];
      PresentTexts(k, init);
      if c.Some? {
        var ss := Texts(init) + [c.value.s];
        assert Texts(cells) == ss && ss[..|ss| - 1] == Texts(init);
      }
    }
  }

  /** A column has no distinct values exactly when it has no non-missing value,
      and never more distinct values than non-missing ones. */
  lemma DistinctCountBounds(cells: seq<Cell>)
    ensures DistinctCount(cells) <= |Present(cells)|
    ensures DistinctCount(cells) == 0 <==> MissingCount(cells) == |cells|
  {
    var p := Present(cells);
    if p != [] {
      assert p[0] in Distinct(cells);
    }
    SetOfSeqBound(p);
  }

  lemma {:induction false} SetOfSeqBound<T>(s: seq<T>)
    ensures |set x | x in s| <= |s|
  {
    if s != [] {
      var init := s[..|s| - 1];
      SetOfSeqBound(init);
      assert s == init + [s[|s| - 1]];
      ElementsSnoc(init, s[|s| - 1]);
    }
  }

  /** The elements of s + [x] are those of s and x. */
  lemma ElementsSnoc<T>(s: seq<T>, x: T)
    ensures (set y | y in s + [x]) == (set y | y in s) + {x}
  {
  }
}
