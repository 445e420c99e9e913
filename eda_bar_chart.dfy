/**
  Bar charts of the categorical columns: the most frequent categories of each
  text column with a moderate number of distinct values, with their counts and
  their share of the bars shown.
*/
module EdaBarChart {
  import opened Wrappers
  import opened RealArith
  import opened EdaTable
  import opened EdaStatistics
  import opened EdaValueCounts

  /** One bar chart (the BarChartData schema). */
  datatype BarChartData = BarChartData(
    column: string,
    categories: seq<string>,
    counts: seq<nat>,
    percentages: seq<real>)

  /** At most this many bars per chart (value_counts().head(15)). */
  const MaxCategories: nat := 15

  /** A text column is charted when it has between 2 and 20 distinct values. */
  predicate Plottable(c: Column) {
    2 <= DistinctCount(c.cells) <= 20
  }

  /** The first maxColumns object columns that qualify, in column order. */
  function ChartedColumns(cols: seq<Column>, maxColumns: nat): seq<Column> {
    Take(Filter(ObjectColumns(cols), Plottable), maxColumns)
  }

  /** count / total * 100 */
  function Share(count: nat, total: nat): real
    requires total > 0
  {
    count as real / total as real * 100.0
  }

  /** Each count as a percentage of total. */
  function Shares(t: seq<Entry<string>>, total: nat): (r: seq<real>)
    requires total > 0
    ensures |r| == |t|
  {
    seq(|t|, i requires 0 <= i < |t| => Share(t[i].1, total))
  }

  function Counts<T>(t: seq<Entry<T>>): (r: seq<nat>)
    ensures |r| == |t| && forall i | 0 <= i < |t| :: r[i] == t[i].1
  {
    seq(|t|, i requires 0 <= i < |t| => t[i].1)
  }

  /** The chart of a column whose text values are words. */
  function ChartOfWords(name: string, words: seq<string>): BarChartData
    requires words != []
  {
    var top := Take(ValueCounts(words), MaxCategories);
    TopTotalPositive(words);
    var total := SumCounts(top);
    BarChartData(name, Keys(top), Counts(top), Shares(top, total))
  }

  lemma TopTotalPositive(words: seq<string>)
    requires words != []
    ensures SumCounts(Take(ValueCounts(words), MaxCategories)) > 0
  {
    ValueCountsCorrect(words);
    FirstIsMostFrequent(words, words[0]);
  }

  /** A chart's bars: at most 15, distinct categories of the column each with
      its number of occurrences, most frequent first, and no category left out
      that is more frequent than one shown. */
  lemma ChartCorrect(name: string, words: seq<string>)
    requires words != []
    ensures var b := ChartOfWords(name, words);
      && b.column == name
      && |b.categories| == |b.counts| == |b.percentages| == Min(MaxCategories, |set w | w in words|)
      && (forall i, j | 0 <= i < j < |b.categories| :: b.categories[i] != b.categories[j])
      && (forall i | 0 <= i < |b.counts| :: b.categories[i] in words && b.counts[i] == multiset(words)[b.categories[i]])
      && (forall i, j | 0 <= i < j < |b.counts| :: b.counts[i] >= b.counts[j])
      && (forall w, i | w in words && w !in b.categories && 0 <= i < |b.counts| :: multiset(words)[w] <= b.counts[i])
  {
    var top := Take(ValueCounts(words), MaxCategories);
    var b := ChartOfWords(name, words);
    var ks, cs := Keys(top), Counts(top);
    assert b.categories == ks && b.counts == cs && |b.percentages| == |top|;
    TopCounts(words, MaxCategories);
    forall i, j | 0 <= i < j < |ks| ensures ks[i] != ks[j] {
      assert ks[i] == top[i].0 && ks[j] == top[j].0;
    }
    forall w, i | w in words && w !in ks && 0 <= i < |cs| ensures multiset(words)[w] <= cs[i] {
      TopIsMostFrequent(words, MaxCategories, w);
    }
  }

  /** The percentages are positive, at most 100, and together 100. */
  lemma ChartPercentages(name: string, words: seq<string>)
    requires words != []
    ensures var b := ChartOfWords(name, words);
      && (forall i | 0 <= i < |b.percentages| :: 0.0 < b.percentages[i] <= 100.0)
      && Sum(b.percentages) == 100.0
  {
    var top := Take(ValueCounts(words), MaxCategories);
    TopCountsPositive(words);
    TopTotalPositive(words);
    SharesInRange(top);
    SharesTotal(top);
  }

  lemma TopCountsPositive(words: seq<string>)
    ensures var top := Take(ValueCounts(words), MaxCategories);
      forall i | 0 <= i < |top| :: top[i].1 > 0
  {
    var vc := ValueCounts(words);
    ValueCountsCorrect(words);
    var top := Take(vc, MaxCategories);
    forall i | 0 <= i < |top| ensures top[i].1 > 0 {
      assert top[i] == vc[i];
    }
  }

  /** Shares of the sum of positive counts are positive and at most 100. */
  lemma SharesInRange(t: seq<Entry<string>>)
    requires SumCounts(t) > 0 && forall i | 0 <= i < |t| :: t[i].1 > 0
    ensures var r := Shares(t, SumCounts(t));
      forall i | 0 <= i < |r| :: 0.0 < r[i] <= 100.0
  {
    var r := Shares(t, SumCounts(t));
    forall i | 0 <= i < |r| ensures 0.0 < r[i] <= 100.0 {
      ShareOfEntry(t, i);
    }
  }

  /** Each share times the total gives back its count (in percent). */
  lemma SharesProportional(t: seq<Entry<string>>)
    requires SumCounts(t) > 0 && forall i | 0 <= i < |t| :: t[i].1 > 0
    ensures var total := SumCounts(t);
      var r := Shares(t, total);
      forall i | 0 <= i < |r| :: r[i] * total as real == t[i].1 as real * 100.0
  {
    var total := SumCounts(t);
    var r := Shares(t, total);
    forall i | 0 <= i < |r| ensures r[i] * total as real == t[i].1 as real * 100.0 {
      EntryBelowSum(t, i);
      ShareTimesTotal(r[i], t[i].1, total);
    }
  }

  /** The shares of the sum of the counts add up to 100. */
  lemma SharesTotal(t: seq<Entry<string>>)
    requires SumCounts(t) > 0
    ensures Sum(Shares(t, SumCounts(t))) == 100.0
  {
    SharesSum(t, SumCounts(t));
    ShareWhole(SumCounts(t));
  }

  lemma ShareOfEntry(t: seq<Entry<string>>, i: nat)
    requires i < |t| && t[i].1 > 0 && SumCounts(t) > 0
    ensures var total := SumCounts(t);
      var p := Shares(t, total)[i];
      p * total as real == t[i].1 as real * 100.0 && 0.0 < p <= 100.0
  {
    var total := SumCounts(t);
    EntryBelowSum(t, i);
    ShareBounds(t[i].1, total);
    assert Shares(t, total)[i] == Share(t[i].1, total);
  }

  lemma ShareTimesTotal(p: real, count: nat, total: nat)
    requires 0 < count <= total && p == Share(count, total)
    ensures p * total as real == count as real * 100.0
  {
    ShareBounds(count, total);
  }

  lemma ShareBounds(count: nat, total: nat)
    requires 0 < count <= total
    ensures Share(count, total) * total as real == count as real * 100.0
    ensures 0.0 < Share(count, total) <= 100.0
  {
    var q := count as real / total as real;
    assert q * total as real == count as real;
    ShareCompare(count, total, 1.0);
    ShareCompare(count, total, 0.0);
  }

  lemma ShareWhole(total: nat)
    requires total > 0
    ensures Share(total, total) == 100.0
  {
  }

  lemma ShareAdd(a: nat, b: nat, total: nat)
    requires total > 0
    ensures Share(a, total) + Share(b, total) == Share(a + b, total)
  {
    var t := total as real;
    var x, y := a as real / t, b as real / t;
    assert x * t == a as real && y * t == b as real;
    assert (x + y) * t == (a + b) as real;
  }

  lemma {:induction false} SharesSum(t: seq<Entry<string>>, total: nat)
    requires total > 0
    ensures Sum(Shares(t, total)) == Share(SumCounts(t), total)
  {
    if t != [] {
      var init, e := t[..|t| - 1], t[|t| - 1];
      assert Shares(t, total)[..|t| - 1] == Shares(init, total);
      SharesSum(init, total);
      assert t == init + [e];
      SumAppend(init, e);
      ShareAdd(SumCounts(init), e.1, total);
    }
  }

  lemma {:induction false} EntryBelowSum(t: seq<Entry<string>>, i: nat)
    requires i < |t|
    ensures t[i].1 <= SumCounts(t)
  {
    if i > 0 {
      EntryBelowSum(t[1..], i - 1);
    }
  }

  /** The chart of a qualifying column. */
  function ChartOf(c: Column): BarChartData
    requires Texts(c.cells) != []
  {
    ChartOfWords(c.name, Texts(c.cells))
  }

  /** A text column with a distinct value has a text value. */
  lemma TextsOfPlottable(c: Column)
    requires forall i | 0 <= i < |c.cells| :: Fits(c.kind, c.cells[i])
    requires c.kind == Object && Plottable(c)
    ensures Texts(c.cells) != []
  {
    NumbersArePresent(c.kind, c.cells);
    DistinctCountBounds(c.cells);
  }

  /** The charted columns are object columns of the table with between 2 and
      20 distinct values, at most maxColumns of them, in table order; when
      fewer than maxColumns qualify, every qualifying column is charted. */
  lemma ChartedColumnsCorrect(t: Table, maxColumns: nat)
    ensures var cs := ChartedColumns(t.columns, maxColumns);
      && |cs| <= maxColumns
      && (forall c | c in cs :: c in t.columns && c.kind == Object && Plottable(c))
      && Subsequence(cs, t.columns)
      && (|cs| < maxColumns ==> forall c | c in t.columns && c.kind == Object && Plottable(c) :: c in cs)
  {
    var all := Filter(ObjectColumns(t.columns), Plottable);
    var cs := ChartedColumns(t.columns, maxColumns);
    forall c | c in cs ensures c in t.columns && c.kind == Object && Plottable(c) {
      assert c in all;
    }
    ObjectColumnsSubsequence(t.columns);
    FilterSubsequence(ObjectColumns(t.columns), Plottable);
    SubsequenceTransitive(all, ObjectColumns(t.columns), t.columns);
    PrefixSubsequence(all, t.columns, |cs|);
    if |cs| < maxColumns {
      forall c | c in t.columns && c.kind == Object && Plottable(c) ensures c in cs {
        assert c in ObjectColumns(t.columns);
      }
    }
  }

  /** Every charted column of a valid table has text values. */
  lemma ChartedHaveTexts(t: Table, maxColumns: nat)
    requires Valid(t)
    ensures forall c | c in ChartedColumns(t.columns, maxColumns) :: Texts(c.cells) != []
  {
    ChartedColumnsCorrect(t, maxColumns);
    forall c | c in ChartedColumns(t.columns, maxColumns) ensures Texts(c.cells) != [] {
      ColumnFits(t, c);
      TextsOfPlottable(c);
    }
  }

  /** What get_bar_chart_data appends for the columns cols, in order. */
  function Charts(cols: seq<Column>): (r: seq<BarChartData>)
    requires forall c | c in cols :: Texts(c.cells) != []
    ensures |r| == |cols|
  {
    if cols == [] then [] else Charts(cols[..|cols| - 1]) + [ChartOf(cols[|cols| - 1])]
  }

  /** The j-th chart is the chart of the j-th column. */
  lemma {:induction false} ChartsInOrder(cols: seq<Column>, j: nat)
    requires forall c | c in cols :: Texts(c.cells) != []
    requires j < |cols|
    ensures Charts(cols)[j] == ChartOf(cols[j])
  {
    if j < |cols| - 1 {
      ChartsInOrder(cols[..|cols| - 1], j);
    }
  }

  lemma ChartsSnoc(cols: seq<Column>, j: nat)
    requires forall c | c in cols :: Texts(c.cells) != []
    requires j < |cols|
    ensures Charts(cols[..j + 1]) == Charts(cols[..j]) + [ChartOf(cols[j])]
  {
    assert cols[..j + 1][..j] == cols[..j];
  }

  /** get_bar_chart_data(df, max_columns=8). */
  method GetBarChartData(t: Table, maxColumns: nat := 8) returns (barCharts: seq<BarChartData>)
    requires Valid(t)
    ensures var cs := ChartedColumns(t.columns, maxColumns);
      && (forall c | c in cs :: Texts(c.cells) != [])
      && barCharts == Charts(cs)
  {
    var catColsToPlot := ChartedColumns(t.columns, maxColumns);
    ChartedHaveTexts(t, maxColumns);
    barCharts := [];
    var j := 0;
    while j < |catColsToPlot|
      invariant 0 <= j <= |catColsToPlot|
      invariant barCharts == Charts(catColsToPlot[..j])
    {
      ChartsSnoc(catColsToPlot, j);
      var chart := ChartFor(catColsToPlot[j]);
      barCharts := barCharts + [chart];
      j := j + 1;
    }
    assert catColsToPlot[..j] == catColsToPlot;
  }

  /** The body of get_bar_chart_data's loop for one column. */
  method ChartFor(col: Column) returns (chart: BarChartData)
    requires Texts(col.cells) != []
    ensures chart == ChartOf(col)
  {
    var words := Texts(col.cells);
    var valueCounts := Take(ValueCounts(words), MaxCategories);
    TopTotalPositive(words);
    var total := SumCounts(valueCounts);
    chart := BarChartData(col.name, Keys(valueCounts), Counts(valueCounts), Shares(valueCounts, total));
  }
}
