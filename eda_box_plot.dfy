/**
  Box plots: the five-number summary of each numeric column and the values
  outside the 1.5·IQR fence around the quartiles.
*/
module EdaBoxPlot {
  import opened Wrappers
  import opened EdaTable
  import opened EdaStatistics

  /** One box plot (the BoxPlotData schema). */
  datatype BoxPlotData = BoxPlotData(
    column: string,
    min: real,
    q1: real,
    median: real,
    q3: real,
    max: real,
    outliers: seq<real>)

  /** At most this many outliers are reported per column. */
  const MaxOutliers: nat := 100

  /** The whisker bounds q1 - 1.5·IQR and q3 + 1.5·IQR. */
  function Fence(q1: real, q3: real): (r: (real, real))
    ensures q1 <= q3 ==> r.0 <= q1 && q3 <= r.1
    ensures r.1 - r.0 == 4.0 * (q3 - q1)
  {
    var iqr := q3 - q1;
    (q1 - 1.5 * iqr, q3 + 1.5 * iqr)
  }

  /** Strictly below the lower or strictly above the upper bound. */
  function Outside(lo: real, hi: real): real -> bool {
    x => x < lo || x > hi
  }

  /** The box plot of the non-missing values xs of a column. */
  function BoxPlotOfValues(name: string, xs: seq<real>): BoxPlotData
    requires xs != []
  {
    WithQuartiles(name, xs, Quantile(xs, 0.25), Quantile(xs, 0.75))
  }

  /** The box plot of xs around given quartiles q1 and q3. */
  function WithQuartiles(name: string, xs: seq<real>, q1: real, q3: real): BoxPlotData
    requires xs != []
  {
    var bounds := Fence(q1, q3);
    BoxPlotData(name, MinOf(xs), q1, Median(xs), q3, MaxOf(xs),
      Take(Filter(xs, Outside(bounds.0, bounds.1)), MaxOutliers))
  }

  /** The box plot of a column; columns without values are skipped. */
  function BoxPlotOf(c: Column): (r: Option<BoxPlotData>)
    ensures r.None? <==> Numbers(c.cells) == []
    ensures r.Some? ==> r.value.column == c.name
  {
    var xs := Numbers(c.cells);
    if xs == [] then None else Some(BoxPlotOfValues(c.name, xs))
  }

  /** The summary is ordered, and the outliers are exactly the values outside
      the fence built from the reported quartiles, in their order in the
      column, cut off after the first 100. */
  lemma BoxPlotCorrect(name: string, xs: seq<real>)
    requires xs != []
    ensures var b := BoxPlotOfValues(name, xs);
      var bounds := Fence(b.q1, b.q3);
      && b.column == name
      && b.min == MinOf(xs) && b.max == MaxOf(xs)
      && b.q1 == Quantile(xs, 0.25) && b.median == Median(xs) && b.q3 == Quantile(xs, 0.75)
      && b.min <= b.q1 <= b.median <= b.q3 <= b.max
      && bounds.0 <= b.q1 && b.q3 <= bounds.1
      && |b.outliers| <= MaxOutliers
      && b.outliers == Take(Filter(xs, Outside(bounds.0, bounds.1)), MaxOutliers)
      && (forall x | x in b.outliers :: x in xs && (x < bounds.0 || x > bounds.1))
      && Subsequence(b.outliers, xs)
  {
    var b := BoxPlotOfValues(name, xs);
    var bounds := Fence(b.q1, b.q3);
    FiveNumbersOrdered(xs);
    var all := Filter(xs, Outside(bounds.0, bounds.1));
    FilterSubsequence(xs, Outside(bounds.0, bounds.1));
    PrefixSubsequence(all, xs, |b.outliers|);
  }

  /** When there are fewer than 100 outliers none is cut off: every value
      outside the fence is reported, as often as it occurs. */
  lemma AllOutliersReported(name: string, xs: seq<real>, x: real)
    requires xs != []
    ensures var b := BoxPlotOfValues(name, xs);
      var bounds := Fence(b.q1, b.q3);
      |b.outliers| < MaxOutliers ==>
        multiset(b.outliers)[x] == if x < bounds.0 || x > bounds.1 then multiset(xs)[x] else 0
  {
    var b := BoxPlotOfValues(name, xs);
    var bounds := Fence(b.q1, b.q3);
    FilterCounts(xs, Outside(bounds.0, bounds.1), x);
  }

  /** The column [1, 2, 2, 3, missing, 4, 100, 5, 6, 7]: quartiles 2 and 6,
      so the fence is [-4, 12] and 100 is the only outlier. */
  lemma BoxPlotExample()
    ensures BoxPlotOf(Column("c", Numeric, ExampleCells())) ==
      Some(BoxPlotData("c", 1.0, 2.0, 4.0, 6.0, 100.0, [100.0]))
  {
    var xs := ExampleValues();
    NumbersExample();
    EndsExample();
    QuartilesExample();
    OutliersExample();
    assert BoxPlotOfValues("c", xs).outliers == [100.0];
  }

  function ExampleCells(): seq<Cell> {
    [Some(Number(1.0)), Some(Number(2.0)), Some(Number(2.0)), Some(Number(3.0)), None,
     Some(Number(4.0)), Some(Number(100.0)), Some(Number(5.0)), Some(Number(6.0)), Some(Number(7.0))]
  }

  function ExampleValues(): seq<real> {
    [1.0, 2.0, 2.0, 3.0, 4.0, 100.0, 5.0, 6.0, 7.0]
  }

  lemma NumbersStep(cells: seq<Cell>, k: nat)
    requires 0 < k <= |cells|
    ensures Numbers(cells[..k]) == Numbers(cells[..k - 1]) +
      (if cells[k - 1].Some? && cells[k - 1].value.Number? then [cells[k - 1].value.x] else [])
  {
    assert cells[..k][..k - 1] == cells[..k - 1];
  }

  lemma NumbersExample()
    ensures Numbers(ExampleCells()) == ExampleValues()
  {
    var cells := ExampleCells();
    NumbersFirstHalf();
    NumbersStep(cells, 6); NumbersStep(cells, 7); NumbersStep(cells, 8);
    NumbersStep(cells, 9); NumbersStep(cells, 10);
    assert cells[..10] == cells;
  }

  lemma NumbersFirstHalf()
    ensures Numbers(ExampleCells()[..5]) == [1.0, 2.0, 2.0, 3.0]
  {
    var cells := ExampleCells();
    assert cells[..0] == [];
    NumbersStep(cells, 1); NumbersStep(cells, 2); NumbersStep(cells, 3);
    NumbersStep(cells, 4); NumbersStep(cells, 5);
  }

  lemma SortExample()
    ensures Sort(ExampleValues()) == [1.0, 2.0, 2.0, 3.0, 4.0, 5.0, 6.0, 7.0, 100.0]
  {
    var sorted := [1.0, 2.0, 2.0, 3.0, 4.0, 5.0, 6.0, 7.0, 100.0];
    var xs := ExampleValues();
    assert xs == sorted[..5] + [100.0] + sorted[5..8];
    assert sorted == sorted[..5] + sorted[5..8] + [100.0];
    assert multiset(sorted) == multiset(xs);
    SortedExampleAscending(sorted);
    SortIs(xs, sorted);
  }

  lemma SortedExampleAscending(s: seq<real>)
    requires s == [1.0, 2.0, 2.0, 3.0, 4.0, 5.0, 6.0, 7.0, 100.0]
    ensures Ascending(s)
  {
    forall i | 0 < i < |s| ensures s[i - 1] <= s[i] {
      assert i in {1, 2, 3, 4, 5, 6, 7, 8};
    }
    AscendingSteps(s);
  }

  lemma EndsExample()
    ensures MinOf(ExampleValues()) == 1.0 && MaxOf(ExampleValues()) == 100.0
  {
    SortExample();
    QuartilesOfSorted(ExampleValues());
  }

  lemma QuartilesExample()
    ensures var xs := ExampleValues();
      Quantile(xs, 0.25) == 2.0 && Median(xs) == 4.0 && Quantile(xs, 0.75) == 6.0
  {
    SortExample();
    QuartilesOfSorted(ExampleValues());
  }

  /** The ends and the quartiles of nine values, read off their sorted order. */
  lemma QuartilesOfSorted(xs: seq<real>)
    requires Sort(xs) == [1.0, 2.0, 2.0, 3.0, 4.0, 5.0, 6.0, 7.0, 100.0]
    ensures |xs| == 9
    ensures MinOf(xs) == 1.0 && MaxOf(xs) == 100.0
    ensures Quantile(xs, 0.25) == 2.0 && Median(xs) == 4.0 && Quantile(xs, 0.75) == 6.0
  {
    SortedElements(Sort(xs));
    SortEnds(xs);
    assert Position(9, 0.25) == 2.0 && Position(9, 0.5) == 4.0 && Position(9, 0.75) == 6.0;
    QuantileAtWhole(xs, 0.25, 2);
    QuantileAtWhole(xs, 0.5, 4);
    QuantileAtWhole(xs, 0.75, 6);
  }

  lemma SortedElements(sorted: seq<real>)
    requires sorted == [1.0, 2.0, 2.0, 3.0, 4.0, 5.0, 6.0, 7.0, 100.0]
    ensures |sorted| == 9 && sorted[0] == 1.0 && sorted[2] == 2.0 && sorted[4] == 4.0
    ensures sorted[6] == 6.0 && sorted[8] == 100.0
  {
  }

  /** A quantile that falls on a whole position is the value there. */
  lemma QuantileAtWhole(xs: seq<real>, q: real, k: nat)
    requires 0.0 <= q <= 1.0 && k < |xs| && Position(|xs|, q) == k as real
    ensures |Sort(xs)| == |xs| && Quantile(xs, q) == Sort(xs)[k]
  {
    SortEnds(xs);
    InterpAtWhole(Sort(xs), k);
  }

  lemma FilterStep(xs: seq<real>, p: real -> bool, k: nat)
    requires 0 < k <= |xs|
    ensures Filter(xs[..k], p) == Filter(xs[..k - 1], p) + (if p(xs[k - 1]) then [xs[k - 1]] else [])
  {
    assert xs[..k][..k - 1] == xs[..k - 1];
  }

  lemma OutliersExample()
    ensures Filter(ExampleValues(), Outside(-4.0, 12.0)) == [100.0]
  {
    var xs, p := ExampleValues(), Outside(-4.0, 12.0);
    assert xs[..0] == [];
    FilterStep(xs, p, 1); FilterStep(xs, p, 2); FilterStep(xs, p, 3);
    FilterStep(xs, p, 4); FilterStep(xs, p, 5); FilterStep(xs, p, 6);
    FilterStep(xs, p, 7); FilterStep(xs, p, 8); FilterStep(xs, p, 9);
    assert xs[..9] == xs;
  }

  /** What get_box_plot_data appends for the columns cols, in order. */
  function BoxPlots(cols: seq<Column>): seq<BoxPlotData> {
    Somes(cols, BoxPlotOf)
  }

  /** One box plot for each column with a value, in column order, and
      nothing else. */
  lemma BoxPlotsCover(cols: seq<Column>)
    ensures var r, f := BoxPlots(cols), Filter(cols, HasNumbers());
      && |r| == |f| <= |cols|
      && (forall k | 0 <= k < |f| :: BoxPlotOf(f[k]) == Some(r[k]))
      && (forall b | b in r :: exists c | c in cols :: BoxPlotOf(c) == Some(b))
      && (forall c | c in cols && Numbers(c.cells) != [] :: BoxPlotOf(c).value in r)
  {
    var p := HasNumbers();
    SomesInOrder(cols, BoxPlotOf, p);
    var r, f := BoxPlots(cols), Filter(cols, p);
    forall b | b in r ensures exists c | c in cols :: BoxPlotOf(c) == Some(b) {
      var k :| 0 <= k < |r| && r[k] == b;
      assert f[k] in f;
    }
    forall c | c in cols && Numbers(c.cells) != [] ensures BoxPlotOf(c).value in r {
      var i :| 0 <= i < |cols| && cols[i] == c;
      assert p(cols[i]);
      var k :| 0 <= k < |f| && f[k] == c;
      assert r[k] in r;
    }
  }

  /** The body of get_box_plot_data's loop for one column with values. */
  method BoxPlotFor(name: string, series: seq<real>) returns (b: BoxPlotData)
    requires series != []
    ensures b == BoxPlotOfValues(name, series)
  {
    var q1 := Quantile(series, 0.25);
    var q3 := Quantile(series, 0.75);
    var iqr := q3 - q1;
    var lowerBound := q1 - 1.5 * iqr;
    var upperBound := q3 + 1.5 * iqr;
    assert lowerBound == Fence(q1, q3).0 && upperBound == Fence(q1, q3).1;
    var outliers := Filter(series, Outside(lowerBound, upperBound));
    b := BoxPlotData(name, MinOf(series), q1, Median(series), q3, MaxOf(series),
      Take(outliers, MaxOutliers));
  }

  /** get_box_plot_data(df, max_columns=10). */
  method GetBoxPlotData(t: Table, maxColumns: nat := 10) returns (boxPlots: seq<BoxPlotData>)
    ensures boxPlots == BoxPlots(Take(NumberColumns(t.columns), maxColumns))
  {
    var numericalCols := Take(NumberColumns(t.columns), maxColumns);
    boxPlots := [];
    var j := 0;
    while j < |numericalCols|
      invariant 0 <= j <= |numericalCols|
      invariant boxPlots == BoxPlots(numericalCols[..j])
    {
      var col := numericalCols[j];
      SomesSnoc(numericalCols, j, BoxPlotOf);
      var series := Numbers(col.cells);
      if |series| == 0 {
        j := j + 1;
        continue;
      }
      var b := BoxPlotFor(col.name, series);
      assert BoxPlotOf(col) == Some(b);
      boxPlots := boxPlots + [b];
      j := j + 1;
    }
    assert numericalCols[..j] == numericalCols;
  }

  /** Only numeric (not Boolean) columns among the first maxColumns of them
      get box plots, at most maxColumns in all. */
  lemma BoxPlotColumns(t: Table, maxColumns: nat)
    ensures var cols := Take(NumberColumns(t.columns), maxColumns);
      var bs := BoxPlots(cols);
      && |bs| <= maxColumns
      && forall b | b in bs :: exists c | c in cols :: c in t.columns && c.kind == Numeric && b.column == c.name
  {
    var cols := Take(NumberColumns(t.columns), maxColumns);
    var bs := BoxPlots(cols);
    BoxPlotsCover(cols);
    forall b | b in bs ensures exists c | c in cols :: c in t.columns && c.kind == Numeric && b.column == c.name {
      var c :| c in cols && BoxPlotOf(c) == Some(b);
      assert c in NumberColumns(t.columns);
    }
  }
}
