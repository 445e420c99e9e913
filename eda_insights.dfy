/**
  generate_insights: six threshold rules over one table, run in a fixed
  order. Each insight is a tagged value carrying what its message reports;
  the message text itself is rendering.
*/
module EdaInsights {
  import opened Wrappers
  import opened RealArith
  import opened EdaTable
  import opened EdaStatistics
  import opened EdaValueCounts
  import opened EdaProfiler
  import opened EdaBoxPlot

  datatype Insight =
    | HighMissing(columns: seq<string>)               // more than 50% missing
    | DuplicateRows(count: nat)                       // rows equal to an earlier row
    | UniqueIdentifier(column: string)                // one distinct value per row
    | Imbalanced(column: string, value: string, count: nat)  // top value over 80% of rows
    | Outliers(column: string, count: nat)            // values outside the 1.5 IQR fence
    | ConstantColumns(columns: seq<string>)           // a single distinct value

  /** value_counts().iloc[0] on a column with no value raises IndexError. */
  datatype InsightError = EmptyValueCounts(column: string)

  /** The position of each rule in the order the rules run. */
  function Rank(i: Insight): nat {
    match i
    case HighMissing(_) => 1
    case DuplicateRows(_) => 2
    case UniqueIdentifier(_) => 3
    case Imbalanced(_, _, _) => 4
    case Outliers(_, _) => 5
    case ConstantColumns(_) => 6
  }

  /** missing > len(df) * 0.5, in whole numbers. */
  function HighlyMissing(rows: nat): Column -> bool {
    (c: Column) => 2 * MissingCount(c.cells) > rows
  }

  /** nunique() == 1 */
  function IsConstant(): Column -> bool {
    (c: Column) => DistinctCount(c.cells) == 1
  }

  /** Rule 3: one insight per column with as many distinct values as rows. */
  function UniqueInsights(cols: seq<Column>, rows: nat): (r: seq<Insight>)
    ensures forall i | i in r :: i.UniqueIdentifier?
  {
    if cols == [] then []
    else
      var last := cols[|cols| - 1];
      UniqueInsights(cols[..|cols| - 1], rows)
        + (if DistinctCount(last.cells) == rows then [UniqueIdentifier(last.name)] else [])
  }

  /** The insight of rule 4 for one object column, or the error its
      value_counts().iloc[0] raises. */
  function ImbalanceOf(c: Column, rows: nat): Result<seq<Insight>, InsightError> {
    if DistinctCount(c.cells) < 10 then
      var vc := ValueCounts(Texts(c.cells));
      if vc == [] then Failure(EmptyValueCounts(c.name))
      else if 5 * vc[0].1 > 4 * rows then Success([Imbalanced(c.name, vc[0].0, vc[0].1)])
      else Success([])
    else Success([])
  }

  /** Rule 4 over the object columns, failing at the first that raises. */
  function ImbalanceInsights(cols: seq<Column>, rows: nat): (r: Result<seq<Insight>, InsightError>)
    ensures r.Success? ==> forall i | i in r.value :: i.Imbalanced?
  {
    if cols == [] then Success([])
    else
      match ImbalanceInsights(cols[..|cols| - 1], rows)
      case Failure(e) => Failure(e)
      case Success(prev) =>
        match ImbalanceOf(cols[|cols| - 1], rows)
        case Failure(e) => Failure(e)
        case Success(one) => Success(prev + one)
  }

  /** ((col < Q1 - 1.5 IQR) | (col > Q3 + 1.5 IQR)).sum(): missing cells,
      and every cell of a column without values (whose quartiles are NaN),
      compare false. */
  function OutlierCount(c: Column): nat {
    var xs := Numbers(c.cells);
    if xs == [] then 0
    else
      var bounds := Fence(Quantile(xs, 0.25), Quantile(xs, 0.75));
      |Filter(xs, Outside(bounds.0, bounds.1))|
  }

  /** Rule 5: one insight per numeric column with an outlier. */
  function OutlierInsights(cols: seq<Column>): (r: seq<Insight>)
    ensures forall i | i in r :: i.Outliers?
  {
    if cols == [] then []
    else
      var last := cols[|cols| - 1];
      OutlierInsights(cols[..|cols| - 1])
        + (if OutlierCount(last) > 0 then [Outliers(last.name, OutlierCount(last))] else [])
  }

  /** Rules 1, 2 and 6, which look at the whole table at once. */
  function MissingInsights(t: Table): (r: seq<Insight>)
    ensures forall i | i in r :: i.HighMissing?
  {
    var high := Filter(t.columns, HighlyMissing(t.rows));
    if |high| > 0 then [HighMissing(Names(high))] else []
  }

  function DuplicateInsights(t: Table): (r: seq<Insight>)
    requires Valid(t)
    ensures forall i | i in r :: i.DuplicateRows?
  {
    var count := DuplicatedRows(t);
    if count > 0 then [DuplicateRows(count)] else []
  }

  function ConstantInsights(t: Table): (r: seq<Insight>)
    ensures forall i | i in r :: i.ConstantColumns?
  {
    var constant := Filter(t.columns, IsConstant());
    if |constant| > 0 then [ConstantColumns(Names(constant))] else []
  }

  /** What generate_insights returns, or the error it raises. */
  function InsightsOf(t: Table): Result<seq<Insight>, InsightError>
    requires Valid(t)
  {
    match ImbalanceInsights(ObjectColumns(t.columns), t.rows)
    case Failure(e) => Failure(e)
    case Success(imbalanced) =>
      Success(MissingInsights(t) + DuplicateInsights(t) + UniqueInsights(t.columns, t.rows)
        + imbalanced + OutlierInsights(NumberColumns(t.columns)) + ConstantInsights(t))
  }

  /** generate_insights(df). */
  method GenerateInsights(t: Table) returns (r: Result<seq<Insight>, InsightError>)
    requires Valid(t)
    ensures r == InsightsOf(t)
  {
    var insights := MissingInsights(t) + DuplicateInsights(t);
    var unique := ScanUnique(t.columns, t.rows);
    insights := insights + unique;
    var imbalanced := ScanImbalance(ObjectColumns(t.columns), t.rows);
    if imbalanced.Failure? {
      return Failure(imbalanced.error);
    }
    insights := insights + imbalanced.value;
    var outliers := ScanOutliers(NumberColumns(t.columns));
    insights := insights + outliers + ConstantInsights(t);
    return Success(insights);
  }

  /** The loop of rule 3. */
  method ScanUnique(cols: seq<Column>, rows: nat) returns (insights: seq<Insight>)
    ensures insights == UniqueInsights(cols, rows)
  {
    insights := [];
    var j := 0;
    while j < |cols|
      invariant 0 <= j <= |cols|
      invariant insights == UniqueInsights(cols[..j], rows)
    {
      assert cols[..j + 1][..j] == cols[..j];
      if DistinctCount(cols[j].cells) == rows {
        insights := insights + [UniqueIdentifier(cols[j].name)];
      }
      j := j + 1;
    }
    assert cols[..j] == cols;
  }

  /** The loop of rule 4, which stops at the first column that raises. */
  method ScanImbalance(cols: seq<Column>, rows: nat) returns (r: Result<seq<Insight>, InsightError>)
    ensures r == ImbalanceInsights(cols, rows)
  {
    var insights := [];
    var j := 0;
    while j < |cols|
      invariant 0 <= j <= |cols|
      invariant ImbalanceInsights(cols[..j], rows) == Success(insights)
    {
      var col := cols[j];
      assert cols[..j + 1][..j] == cols[..j];
      if DistinctCount(col.cells) < 10 {
        var valueCounts := ValueCounts(Texts(col.cells));
        if valueCounts == [] {
          ImbalanceStops(cols, rows, j + 1);
          return Failure(EmptyValueCounts(col.name));
        }
        if 5 * valueCounts[0].1 > 4 * rows {
          assert ImbalanceOf(col, rows) == Success([Imbalanced(col.name, valueCounts[0].0, valueCounts[0].1)]);
          insights := insights + [Imbalanced(col.name, valueCounts[0].0, valueCounts[0].1)];
        } else {
          assert ImbalanceOf(col, rows) == Success([]);
          assert insights + [] == insights;
        }
      } else {
        assert ImbalanceOf(col, rows) == Success([]);
        assert insights + [] == insights;
      }
      j := j + 1;
    }
    assert cols[..j] == cols;
    return Success(insights);
  }

  /** Once a column fails, so does every longer prefix, with its error. */
  lemma {:induction false} ImbalanceStops(cols: seq<Column>, rows: nat, k: nat)
    requires k <= |cols| && ImbalanceInsights(cols[..k], rows).Failure?
    ensures ImbalanceInsights(cols, rows) == ImbalanceInsights(cols[..k], rows)
    decreases |cols| - k
  {
    if k < |cols| {
      assert cols[..k + 1][..k] == cols[..k];
      ImbalanceStops(cols, rows, k + 1);
    } else {
      assert cols[..k] == cols;
    }
  }

  /** The loop of rule 5. */
  method ScanOutliers(cols: seq<Column>) returns (insights: seq<Insight>)
    ensures insights == OutlierInsights(cols)
  {
    insights := [];
    var j := 0;
    while j < |cols|
      invariant 0 <= j <= |cols|
      invariant insights == OutlierInsights(cols[..j])
    {
      var col := cols[j];
      assert cols[..j + 1][..j] == cols[..j];
      var series := Numbers(col.cells);
      if series != [] {
        var q1 := Quantile(series, 0.25);
        var q3 := Quantile(series, 0.75);
        var iqr := q3 - q1;
        var lower, upper := q1 - 1.5 * iqr, q3 + 1.5 * iqr;
        assert lower == Fence(q1, q3).0 && upper == Fence(q1, q3).1;
        var outliers := |Filter(series, Outside(lower, upper))|;
        if outliers > 0 {
          insights := insights + [Outliers(col.name, outliers)];
        }
      }
      j := j + 1;
    }
    assert cols[..j] == cols;
  }

  // ---------------------------------------------------------------------------
  // What the rules promise
  // ---------------------------------------------------------------------------

  /** Ranks never decrease along the sequence. */
  predicate InRuleOrder(s: seq<Insight>) {
    forall i, j | 0 <= i < j < |s| :: Rank(s[i]) <= Rank(s[j])
  }

  lemma OrderedAppend(s: seq<Insight>, u: seq<Insight>, k: nat)
    requires InRuleOrder(s) && (forall x | x in s :: Rank(x) <= k)
    requires forall x | x in u :: Rank(x) == k
    ensures InRuleOrder(s + u) && forall x | x in s + u :: Rank(x) <= k
  {
    var r := s + u;
    forall i, j | 0 <= i < j < |r| ensures Rank(r[i]) <= Rank(r[j]) {
      if j < |s| {
        assert r[i] == s[i] && r[j] == s[j];
      } else if i < |s| {
        assert r[i] in s && r[j] in u;
      } else {
        assert r[i] in u && r[j] in u;
      }
    }
  }

  /** The insights come out rule by rule, in the order the rules run. */
  lemma InsightsInOrder(t: Table)
    requires Valid(t)
    ensures InsightsOf(t).Success? ==> InRuleOrder(InsightsOf(t).value)
  {
    var imb := ImbalanceInsights(ObjectColumns(t.columns), t.rows);
    if imb.Success? {
      RulesInOrder(MissingInsights(t), DuplicateInsights(t), UniqueInsights(t.columns, t.rows),
        imb.value, OutlierInsights(NumberColumns(t.columns)), ConstantInsights(t));
    }
  }

  lemma RulesInOrder(s1: seq<Insight>, s2: seq<Insight>, s3: seq<Insight>,
                     s4: seq<Insight>, s5: seq<Insight>, s6: seq<Insight>)
    requires forall x | x in s1 :: x.HighMissing?
    requires forall x | x in s2 :: x.DuplicateRows?
    requires forall x | x in s3 :: x.UniqueIdentifier?
    requires forall x | x in s4 :: x.Imbalanced?
    requires forall x | x in s5 :: x.Outliers?
    requires forall x | x in s6 :: x.ConstantColumns?
    ensures InRuleOrder(s1 + s2 + s3 + s4 + s5 + s6)
  {
    assert [] + s1 == s1;
    OrderedAppend([], s1, 1);
    OrderedAppend(s1, s2, 2);
    OrderedAppend(s1 + s2, s3, 3);
    OrderedAppend(s1 + s2 + s3, s4, 4);
    OrderedAppend(s1 + s2 + s3 + s4, s5, 5);
    OrderedAppend(s1 + s2 + s3 + s4 + s5, s6, 6);
  }

  /** r lists tag(c) for each c of f, in order. */
  predicate Tagged(r: seq<Insight>, f: seq<Column>, tag: Column -> Insight) {
    |r| == |f| && forall k | 0 <= k < |f| :: r[k] == tag(f[k])
  }

  lemma TaggedSnoc(r: seq<Insight>, f: seq<Column>, tag: Column -> Insight, c: Column)
    requires Tagged(r, f, tag)
    ensures Tagged(r + [tag(c)], f + [c], tag)
  {
  }

  /** nunique() == len(df) */
  function IsIdentifier(rows: nat): Column -> bool {
    (c: Column) => DistinctCount(c.cells) == rows
  }

  /** Rule 3 reports exactly the columns with one distinct value per row,
      each once, in column order. */
  lemma {:induction false} UniqueInsightsExact(cols: seq<Column>, rows: nat)
    ensures Tagged(UniqueInsights(cols, rows), Filter(cols, IsIdentifier(rows)), (c: Column) => UniqueIdentifier(c.name))
  {
    if cols != [] {
      var init, last := cols[..|cols| - 1], cols[|cols| - 1];
      UniqueInsightsExact(init, rows);
      if IsIdentifier(rows)(last) {
        TaggedSnoc(UniqueInsights(init, rows), Filter(init, IsIdentifier(rows)), (c: Column) => UniqueIdentifier(c.name), last);
      } else {
        assert UniqueInsights(cols, rows) == UniqueInsights(init, rows) + [];
      }
    }
  }

  /** outliers > 0 */
  function HasOutliers(): Column -> bool {
    (c: Column) => OutlierCount(c) > 0
  }

  /** Rule 5 reports exactly the columns with an outlier, each once with its
      number of outliers, in column order. */
  lemma {:induction false} OutlierInsightsExact(cols: seq<Column>)
    ensures Tagged(OutlierInsights(cols), Filter(cols, HasOutliers()), (c: Column) => Outliers(c.name, OutlierCount(c)))
  {
    if cols != [] {
      var init, last := cols[..|cols| - 1], cols[|cols| - 1];
      OutlierInsightsExact(init);
      if HasOutliers()(last) {
        TaggedSnoc(OutlierInsights(init), Filter(init, HasOutliers()), (c: Column) => Outliers(c.name, OutlierCount(c)), last);
      } else {
        assert OutlierInsights(cols) == OutlierInsights(init) + [];
      }
    }
  }

  /** The outlier count of rule 5 is the number of values outside the box
      plot's fence: the box plot of the column lists the first 100 of them. */
  lemma OutliersMatchBoxPlot(c: Column)
    ensures BoxPlotOf(c).Some? ==> |BoxPlotOf(c).value.outliers| == Min(MaxOutliers, OutlierCount(c))
    ensures BoxPlotOf(c).None? ==> OutlierCount(c) == 0
  {
  }

  /** The test of rule 4 for one column fails exactly when it has fewer than
      ten distinct values and no text at all. */
  lemma ImbalanceOfFails(c: Column, rows: nat)
    ensures ImbalanceOf(c, rows).Failure? <==> DistinctCount(c.cells) < 10 && Texts(c.cells) == []
    ensures ImbalanceOf(c, rows).Failure? ==> ImbalanceOf(c, rows).error == EmptyValueCounts(c.name)
  {
    var s := Texts(c.cells);
    ValueCountsCorrect(s);
    if s != [] {
      assert s[0] in (set x | x in s);
    }
  }

  /** Rule 4 fails exactly when some column's test fails. */
  lemma {:induction false} ImbalanceFails(cols: seq<Column>, rows: nat)
    ensures ImbalanceInsights(cols, rows).Failure? <==>
      exists c | c in cols :: ImbalanceOf(c, rows).Failure?
  {
    if cols != [] {
      var init, last := cols[..|cols| - 1], cols[|cols| - 1];
      ImbalanceFails(init, rows);
      assert cols == init + [last];
      if ImbalanceInsights(init, rows).Failure? {
        var c :| c in init && ImbalanceOf(c, rows).Failure?;
        assert c in cols;
      } else if ImbalanceOf(last, rows).Success? {
        forall c | c in cols ensures ImbalanceOf(c, rows).Success? {
          assert c in init || c == last;
        }
      }
    }
  }

  /** Column k is the first whose test of rule 4 fails. */
  predicate FailsFirstAt(cols: seq<Column>, rows: nat, k: nat) {
    && k < |cols|
    && ImbalanceOf(cols[k], rows).Failure?
    && forall q | 0 <= q < k :: ImbalanceOf(cols[q], rows).Success?
  }

  lemma FailsFirstAtPrefix(cols: seq<Column>, rows: nat, k: nat)
    requires cols != [] && FailsFirstAt(cols[..|cols| - 1], rows, k)
    ensures FailsFirstAt(cols, rows, k)
  {
    var init := cols[..|cols| - 1];
    assert forall q | 0 <= q <= k :: cols[q] == init[q];
  }

  /** When rule 4 fails, the error is that of the first column whose test
      fails. */
  lemma {:induction false} ImbalanceFailsAtFirst(cols: seq<Column>, rows: nat)
    requires ImbalanceInsights(cols, rows).Failure?
    ensures exists k: nat ::
      FailsFirstAt(cols, rows, k) && ImbalanceInsights(cols, rows).error == ImbalanceOf(cols[k], rows).error
  {
    var init, last := cols[..|cols| - 1], cols[|cols| - 1];
    if ImbalanceInsights(init, rows).Failure? {
      ImbalanceFailsAtFirst(init, rows);
      var k: nat :| FailsFirstAt(init, rows, k) &&
        ImbalanceInsights(init, rows).error == ImbalanceOf(init[k], rows).error;
      FailsFirstAtPrefix(cols, rows, k);
      assert cols[k] == init[k];
    } else {
      ImbalanceFails(init, rows);
      var k := |cols| - 1;
      forall q | 0 <= q < k ensures ImbalanceOf(cols[q], rows).Success? {
        assert cols[q] == init[q] && init[q] in init;
      }
      assert FailsFirstAt(cols, rows, k);
    }
  }

  /** The test of rule 4: fewer than 10 distinct values, and the top value
      covers more than 80% of all rows (missing cells included). */
  function IsImbalanced(rows: nat): Column -> bool {
    (c: Column) =>
      var vc := ValueCounts(Texts(c.cells));
      DistinctCount(c.cells) < 10 && vc != [] && 5 * vc[0].1 > 4 * rows
  }

  /** r names, in order, each column of f with its most frequent text and
      that text's count. */
  predicate TopTagged(r: seq<Insight>, f: seq<Column>) {
    && |r| == |f|
    && forall k | 0 <= k < |f| ::
      var vc := ValueCounts(Texts(f[k].cells));
      vc != [] && r[k] == Imbalanced(f[k].name, vc[0].0, vc[0].1)
  }

  lemma TopTaggedSnoc(r: seq<Insight>, f: seq<Column>, c: Column)
    requires TopTagged(r, f) && ValueCounts(Texts(c.cells)) != []
    ensures var vc := ValueCounts(Texts(c.cells));
      TopTagged(r + [Imbalanced(c.name, vc[0].0, vc[0].1)], f + [c])
  {
    var vc := ValueCounts(Texts(c.cells));
    var r', f' := r + [Imbalanced(c.name, vc[0].0, vc[0].1)], f + [c];
    forall k | 0 <= k < |f'|
      ensures var v := ValueCounts(Texts(f'[k].cells)); v != [] && r'[k] == Imbalanced(f'[k].name, v[0].0, v[0].1)
    {
      if k < |f| {
        assert f'[k] == f[k] && r'[k] == r[k];
      }
    }
  }

  /** One more column of a run of rule 4 that does not fail. */
  lemma ImbalanceStep(cols: seq<Column>, rows: nat)
    requires cols != [] && ImbalanceInsights(cols, rows).Success?
    ensures var init, last := cols[..|cols| - 1], cols[|cols| - 1];
      && ImbalanceInsights(init, rows).Success? && ImbalanceOf(last, rows).Success?
      && ImbalanceInsights(cols, rows).value == ImbalanceInsights(init, rows).value + ImbalanceOf(last, rows).value
  {
  }

  /** When rule 4 does not fail, it reports exactly the imbalanced columns,
      each once with its most frequent value and that value's count, in
      column order. */
  lemma {:induction false} ImbalanceInsightsExact(cols: seq<Column>, rows: nat)
    requires ImbalanceInsights(cols, rows).Success?
    ensures TopTagged(ImbalanceInsights(cols, rows).value, Filter(cols, IsImbalanced(rows)))
  {
    if cols != [] {
      var init, last := cols[..|cols| - 1], cols[|cols| - 1];
      ImbalanceStep(cols, rows);
      ImbalanceInsightsExact(init, rows);
      ImbalanceOfValue(last, rows);
      if IsImbalanced(rows)(last) {
        TopTaggedSnoc(ImbalanceInsights(init, rows).value, Filter(init, IsImbalanced(rows)), last);
      } else {
        assert ImbalanceInsights(init, rows).value + [] == ImbalanceInsights(init, rows).value;
      }
    }
  }

  /** What the test of rule 4 yields for a column when it does not fail. */
  lemma ImbalanceOfValue(c: Column, rows: nat)
    requires ImbalanceOf(c, rows).Success?
    ensures var vc := ValueCounts(Texts(c.cells));
      && (IsImbalanced(rows)(c) ==> vc != [] && ImbalanceOf(c, rows).value == [Imbalanced(c.name, vc[0].0, vc[0].1)])
      && (!IsImbalanced(rows)(c) ==> ImbalanceOf(c, rows).value == [])
  {
  }

  /** The value an imbalance insight names is a most frequent one. */
  lemma ImbalancedValueIsTop(c: Column, rows: nat, w: string)
    requires IsImbalanced(rows)(c) && w in Texts(c.cells)
    ensures var top := ValueCounts(Texts(c.cells))[0];
      top.0 in Texts(c.cells) && multiset(Texts(c.cells))[w] <= top.1 == multiset(Texts(c.cells))[top.0]
  {
    var s := Texts(c.cells);
    FirstIsMostFrequent(s, w);
    ValueCountsCorrect(s);
    assert ValueCounts(s)[0] in ValueCounts(s);
  }

  /** The whole-number tests are the thresholds as written: for a positive
      number of rows, count / rows > 0.8 and missing > rows * 0.5. */
  lemma ThresholdsAsWritten(count: nat, rows: nat)
    requires rows > 0
    ensures 5 * count > 4 * rows <==> count as real / rows as real > 0.8
    ensures 2 * count > rows <==> count as real > rows as real * 0.5
  {
    ShareCompare(count, rows, 0.8);
    assert (5 * count) as real == 5.0 * count as real;
    assert (4 * rows) as real == 4.0 * rows as real;
    assert (2 * count) as real == 2.0 * count as real;
  }

  /** In a valid table an object column has no text exactly when every cell
      is missing, and then it has no distinct value. */
  lemma ObjectColumnEmpty(t: Table, c: Column)
    requires Valid(t) && c in t.columns && c.kind == Object
    ensures Texts(c.cells) == [] <==> MissingCount(c.cells) == t.rows
    ensures Texts(c.cells) == [] ==> DistinctCount(c.cells) == 0
  {
    ColumnFits(t, c);
    NumbersArePresent(c.kind, c.cells);
    DistinctCountBounds(c.cells);
    var j :| 0 <= j < |t.columns| && t.columns[j] == c;
    assert ValidColumn(t.columns[j], t.rows);
  }

  /** generate_insights raises exactly when some object column is entirely
      missing: its nunique() is 0 < 10 and value_counts() is then empty. */
  lemma InsightsFailIff(t: Table)
    requires Valid(t)
    ensures InsightsOf(t).Failure? <==>
      exists c | c in t.columns :: c.kind == Object && MissingCount(c.cells) == t.rows
  {
    var objs := ObjectColumns(t.columns);
    ImbalanceFails(objs, t.rows);
    if InsightsOf(t).Failure? {
      var c :| c in objs && ImbalanceOf(c, t.rows).Failure?;
      FailingColumnEmpty(t, c);
    }
    if exists c | c in t.columns :: c.kind == Object && MissingCount(c.cells) == t.rows {
      var c :| c in t.columns && c.kind == Object && MissingCount(c.cells) == t.rows;
      EmptyColumnFails(t, c);
    }
  }

  lemma FailingColumnEmpty(t: Table, c: Column)
    requires Valid(t) && c in ObjectColumns(t.columns) && ImbalanceOf(c, t.rows).Failure?
    ensures c in t.columns && c.kind == Object && MissingCount(c.cells) == t.rows
  {
    ImbalanceOfFails(c, t.rows);
    ObjectColumnEmpty(t, c);
  }

  lemma EmptyColumnFails(t: Table, c: Column)
    requires Valid(t) && c in t.columns && c.kind == Object && MissingCount(c.cells) == t.rows
    ensures c in ObjectColumns(t.columns) && ImbalanceOf(c, t.rows).Failure?
  {
    ObjectColumnEmpty(t, c);
    ImbalanceOfFails(c, t.rows);
  }

  /** Rule 1 gives one insight exactly when some column is more than half
      missing, and it names exactly those columns, in column order. */
  lemma MissingInsightsCorrect(t: Table)
    ensures MissingInsights(t) != [] <==> exists c | c in t.columns :: 2 * MissingCount(c.cells) > t.rows
    ensures MissingInsights(t) != [] ==>
      MissingInsights(t) == [HighMissing(Names(Filter(t.columns, HighlyMissing(t.rows))))]
    ensures forall c | c in t.columns && 2 * MissingCount(c.cells) > t.rows ::
      c.name in MissingInsights(t)[0].columns
  {
    var high := Filter(t.columns, HighlyMissing(t.rows));
    if exists c | c in t.columns :: 2 * MissingCount(c.cells) > t.rows {
      var c :| c in t.columns && 2 * MissingCount(c.cells) > t.rows;
      assert HighlyMissing(t.rows)(c);
      var j :| 0 <= j < |t.columns| && t.columns[j] == c;
      assert c in high;
    }
    if high != [] {
      assert high[0] in high;
    }
    forall c | c in t.columns && 2 * MissingCount(c.cells) > t.rows
      ensures c.name in MissingInsights(t)[0].columns
    {
      assert HighlyMissing(t.rows)(c);
      var j :| 0 <= j < |t.columns| && t.columns[j] == c;
      assert c in high;
      var k :| 0 <= k < |high| && high[k] == c;
      assert Names(high)[k] == c.name;
    }
  }

  /** Rule 6 likewise for the columns with exactly one distinct value. */
  lemma ConstantInsightsCorrect(t: Table)
    ensures ConstantInsights(t) != [] <==> exists c | c in t.columns :: DistinctCount(c.cells) == 1
    ensures forall c | c in t.columns && DistinctCount(c.cells) == 1 ::
      c.name in ConstantInsights(t)[0].columns
  {
    var constant := Filter(t.columns, IsConstant());
    if exists c | c in t.columns :: DistinctCount(c.cells) == 1 {
      var c :| c in t.columns && DistinctCount(c.cells) == 1;
      assert IsConstant()(c);
      var j :| 0 <= j < |t.columns| && t.columns[j] == c;
      assert c in constant;
    }
    if constant != [] {
      assert constant[0] in constant;
    }
    forall c | c in t.columns && DistinctCount(c.cells) == 1
      ensures c.name in ConstantInsights(t)[0].columns
    {
      assert IsConstant()(c);
      var j :| 0 <= j < |t.columns| && t.columns[j] == c;
      assert c in constant;
      var k :| 0 <= k < |constant| && constant[k] == c;
      assert Names(constant)[k] == c.name;
    }
  }

  /** Rule 2 gives one insight exactly when the frame has columns and some row
      repeats an earlier one; it reports how many do, which with the distinct
      rows makes up all rows. */
  lemma DuplicateInsightsCorrect(t: Table)
    requires Valid(t)
    ensures var rows := RowsOf(t);
      && (DuplicateInsights(t) != [] <==>
            t.columns != [] && exists i, j | 0 <= i < j < t.rows :: rows[i] == rows[j])
      && (DuplicateInsights(t) != [] ==> DuplicateInsights(t) == [DuplicateRows(DuplicateCount(rows))])
      && (t.columns != [] ==> DuplicateCount(rows) + |set r | r in rows| == t.rows)
  {
    var rows := RowsOf(t);
    DuplicatesAndDistinctRows(rows);
    RepeatCounted(rows);
  }

  /** Some element repeats an earlier one exactly when the duplicate count is
      positive. */
  lemma {:induction false} RepeatCounted<T>(s: seq<T>)
    ensures DuplicateCount(s) > 0 <==> exists i, j | 0 <= i < j < |s| :: s[i] == s[j]
  {
    if s != [] {
      var init, last := s[..|s| - 1], s[|s| - 1];
      RepeatCounted(init);
      if exists i, j | 0 <= i < j < |init| :: init[i] == init[j] {
        var i, j :| 0 <= i < j < |init| && init[i] == init[j];
        assert s[i] == s[j];
      }
      if last in init {
        var i :| 0 <= i < |init| && init[i] == last;
        assert s[i] == s[|s| - 1];
      }
      if exists i, j | 0 <= i < j < |s| :: s[i] == s[j] {
        var i, j :| 0 <= i < j < |s| && s[i] == s[j];
        if j == |s| - 1 {
          assert init[i] == last;
        } else {
          assert init[i] == init[j];
        }
      }
    }
  }

  /** In a table without rows every column has as many distinct values (none)
      as there are rows (none), so rule 3 calls every column an identifier. */
  lemma ZeroRowsAllIdentifiers(t: Table)
    requires Valid(t) && t.rows == 0
    ensures Tagged(UniqueInsights(t.columns, t.rows), t.columns, (c: Column) => UniqueIdentifier(c.name))
  {
    forall c | c in t.columns ensures IsIdentifier(t.rows)(c) {
      var j :| 0 <= j < |t.columns| && t.columns[j] == c;
      assert ValidColumn(t.columns[j], t.rows);
      assert Present(c.cells) == [];
    }
    FilterAll(t.columns, IsIdentifier(t.rows));
    UniqueInsightsExact(t.columns, t.rows);
  }
}
