/**
  get_scatter_plot_data: the pairs of numeric columns with a defined r,
  ranked by |r| (stably, strongest first), the first max_pairs of them, and
  for each a sample of the rows where both columns hold a value.
*/
module EdaScatter {
  import opened Wrappers
  import opened EdaTable
  import opened EdaPairs
  import opened EdaPairSort
  import opened EdaCorrelation

  /** The cap on the rows sampled for one plot. */
  const MaxPoints: nat := 1000

  type Point = (real, real)

  /** DataFrame.sample(n=...): a random choice of n of the rows, so a
      parameter of the model. */
  type Sampler = (seq<Point>, nat) -> seq<Point>

  /** What a sample of n of the rows is: n rows, each drawn at most as often
      as it occurs. */
  ghost predicate IsSampler(sample: Sampler) {
    forall rows: seq<Point>, n: nat | n <= |rows| ::
      |sample(rows, n)| == n && multiset(sample(rows, n)) <= multiset(rows)
  }

  datatype ScatterPlotData = ScatterPlotData(
    xColumn: string,
    yColumn: string,
    dataPoints: seq<Point>,
    correlation: real)

  /** not np.isnan(abs(r)) */
  predicate IsDefined(v: Option<real>) {
    v.Some?
  }

  /** The candidate of pair (i, j): the two names and |r|. Pairs outside the
      matrix, or with a NaN entry, are never looked up. */
  function ScoredOf(names: seq<string>, m: Matrix): Pair -> Scored {
    (p: Pair) =>
      if p.0 < |names| && p.1 < |names| && p.0 < |m| && p.1 < |m[p.0]| && m[p.0][p.1].Some?
      then Scored(names[p.0], names[p.1], Abs(m[p.0][p.1].value))
      else Scored("", "", 0.0)
  }

  /** The list pairs before sorting: the pairs i < j with a defined r, row
      after row. */
  function Candidates(numeric: seq<Column>, r: Pearson): seq<Scored> {
    var m := CorrMatrix(numeric, r);
    MapPairs(AllPairs(m, IsDefined), ScoredOf(Names(numeric), m))
  }

  /** df[name]: the cells of the first column of that name. */
  function CellsOf(cols: seq<Column>, name: string): (r: seq<Cell>)
    ensures r == [] || exists c | c in cols :: c.name == name && c.cells == r
  {
    if cols == [] then []
    else if cols[0].name == name then cols[0].cells
    else CellsOf(cols[1..], name)
  }

  /** df[[x, y]].dropna(): the rows where both columns hold a number, in row
      order. */
  function CompleteRows(x: seq<Cell>, y: seq<Cell>): (r: seq<Point>)
    ensures |r| <= |x|
  {
    if x == [] || y == [] then []
    else
      (if x[0].Some? && x[0].value.Number? && y[0].Some? && y[0].value.Number?
       then [(x[0].value.x, y[0].value.x)] else [])
      + CompleteRows(x[1..], y[1..])
  }

  /** The rows of two columns side by side. */
  function Zip<A, B>(a: seq<A>, b: seq<B>): (r: seq<(A, B)>)
    ensures |r| == Min(|a|, |b|) && forall i | 0 <= i < |r| :: r[i] == (a[i], b[i])
  {
    seq(Min(|a|, |b|), i requires 0 <= i < Min(|a|, |b|) => (a[i], b[i]))
  }

  /** Whether both cells of a row hold a number. */
  function BothNumbers(): ((Cell, Cell)) -> bool {
    (p: (Cell, Cell)) => p.0.Some? && p.0.value.Number? && p.1.Some? && p.1.value.Number?
  }

  lemma ZipCons<A, B>(a: seq<A>, b: seq<B>)
    requires a != [] && b != []
    ensures Zip(a, b) == [(a[0], b[0])] + Zip(a[1..], b[1..])
  {
    var z, z' := Zip(a, b), Zip(a[1..], b[1..]);
    assert |z| == 1 + |z'|;
    forall i | 0 <= i < |z| ensures z[i] == ([(a[0], b[0])] + z')[i] {
      if i > 0 {
        assert z'[i - 1] == (a[1..][i - 1], b[1..][i - 1]);
      }
    }
  }

  /** r holds, one for one and in order, the points of the rows in f, each
      row holding two numbers. */
  predicate PointsOfRows(f: seq<(Cell, Cell)>, r: seq<Point>) {
    && |r| == |f|
    && forall k | 0 <= k < |f| :: BothNumbers()(f[k]) && r[k] == (f[k].0.value.x, f[k].1.value.x)
  }

  lemma PointsOfRowsCons(a: (Cell, Cell), f: seq<(Cell, Cell)>, r: seq<Point>)
    requires BothNumbers()(a) && PointsOfRows(f, r)
    ensures PointsOfRows([a] + f, [(a.0.value.x, a.1.value.x)] + r)
  {
    var f', r' := [a] + f, [(a.0.value.x, a.1.value.x)] + r;
    forall k | 0 <= k < |f'| ensures BothNumbers()(f'[k]) && r'[k] == (f'[k].0.value.x, f'[k].1.value.x) {
      if k > 0 {
        assert f'[k] == f[k - 1] && r'[k] == r[k - 1];
      }
    }
  }

  /** dropna keeps exactly the rows of the two columns where both cells hold
      a number, in row order, and each becomes the point of those numbers. */
  lemma {:induction false} CompleteRowsAreDropna(x: seq<Cell>, y: seq<Cell>)
    ensures PointsOfRows(Filter(Zip(x, y), BothNumbers()), CompleteRows(x, y))
  {
    var p := BothNumbers();
    if x == [] || y == [] {
      assert Zip(x, y) == [];
    } else {
      var a := (x[0], y[0]);
      CompleteRowsAreDropna(x[1..], y[1..]);
      var f', r' := Filter(Zip(x[1..], y[1..]), p), CompleteRows(x[1..], y[1..]);
      ZipCons(x, y);
      FilterAppend([a], Zip(x[1..], y[1..]), p);
      FilterSnoc([], a, p);
      if p(a) {
        assert Filter(Zip(x, y), p) == [a] + f';
        assert CompleteRows(x, y) == [(x[0].value.x, y[0].value.x)] + r';
        PointsOfRowsCons(a, f', r');
      } else {
        assert Filter(Zip(x, y), p) == f' && CompleteRows(x, y) == r';
      }
    }
  }


  /** The plot of one ranked pair. */
  function PlotOf(t: Table, s: Scored, sample: Sampler): ScatterPlotData {
    var complete := CompleteRows(CellsOf(t.columns, s.column1), CellsOf(t.columns, s.column2));
    var sampleSize := Min(MaxPoints, t.rows);
    ScatterPlotData(s.column1, s.column2, sample(complete, Min(sampleSize, |complete|)), s.strength)
  }

  /** What get_scatter_plot_data returns. */
  function ScatterPlotsOf(t: Table, r: Pearson, sample: Sampler, maxPairs: nat): seq<ScatterPlotData> {
    var numeric := NumberColumns(t.columns);
    if |numeric| < 2 then []
    else
      var top := Take(SortDesc(Candidates(numeric, r)), maxPairs);
      seq(|top|, k requires 0 <= k < |top| => PlotOf(t, top[k], sample))
  }

  /** get_scatter_plot_data(df, max_pairs=5). */
  method GetScatterPlotData(t: Table, r: Pearson, sample: Sampler, maxPairs: nat := 5)
    returns (scatterPlots: seq<ScatterPlotData>)
    ensures scatterPlots == ScatterPlotsOf(t, r, sample, maxPairs)
  {
    var numericalCols := NumberColumns(t.columns);
    if |numericalCols| < 2 {
      return [];
    }
    var names := Names(numericalCols);
    var corr := CorrMatrix(numericalCols, r);
    var pairs := DefinedPairs(names, corr);
    var topPairs := RankPairs(pairs, maxPairs);
    scatterPlots := PlotPairs(t, topPairs, sample);
  }

  /** pairs.sort(key=lambda x: x[2], reverse=True); pairs[:max_pairs] */
  method RankPairs(pairs: seq<Scored>, maxPairs: nat) returns (topPairs: seq<Scored>)
    ensures topPairs == Take(SortDesc(pairs), maxPairs)
  {
    var a := new Scored[|pairs|](k requires 0 <= k < |pairs| => pairs[k]);
    assert a[..] == pairs;
    SortPairs(a);
    topPairs := Take(a[..], maxPairs);
  }

  /** The loop over the top pairs that samples and records each plot. */
  method PlotPairs(t: Table, topPairs: seq<Scored>, sample: Sampler) returns (scatterPlots: seq<ScatterPlotData>)
    ensures scatterPlots == seq(|topPairs|, k requires 0 <= k < |topPairs| => PlotOf(t, topPairs[k], sample))
  {
    scatterPlots := [];
    var k := 0;
    while k < |topPairs|
      invariant 0 <= k <= |topPairs|
      invariant |scatterPlots| == k
      invariant forall q | 0 <= q < k :: scatterPlots[q] == PlotOf(t, topPairs[q], sample)
    {
      var col1, col2, strength := topPairs[k].column1, topPairs[k].column2, topPairs[k].strength;
      var sampleSize := Min(MaxPoints, t.rows);
      var complete := CompleteRows(CellsOf(t.columns, col1), CellsOf(t.columns, col2));
      var dataPoints := sample(complete, Min(sampleSize, |complete|));
      scatterPlots := scatterPlots + [ScatterPlotData(col1, col2, dataPoints, strength)];
      k := k + 1;
    }
  }

  /** The nested loops of get_scatter_plot_data over the pairs i < j. */
  method DefinedPairs(names: seq<string>, corr: Matrix) returns (pairs: seq<Scored>)
    requires Square(corr) && |names| == |corr|
    ensures pairs == MapPairs(AllPairs(corr, IsDefined), ScoredOf(names, corr))
  {
    pairs := [];
    var i := 0;
    while i < |names|
      invariant 0 <= i <= |names|
      invariant pairs == MapPairs(Pairs(corr, IsDefined, i), ScoredOf(names, corr))
    {
      var row := DefinedInRow(names, corr, i);
      MapPairsNextRow(corr, IsDefined, i, pairs, row, ScoredOf(names, corr));
      pairs := pairs + row;
      i := i + 1;
    }
  }

  /** The inner loop for row i: the pairs (i, j), i < j, with a defined r. */
  method DefinedInRow(names: seq<string>, corr: Matrix, i: nat) returns (row: seq<Scored>)
    requires Square(corr) && |names| == |corr| && i < |corr|
    ensures row == MapPairs(RowPairs(corr, IsDefined, i, |corr|), ScoredOf(names, corr))
  {
    ghost var f := ScoredOf(names, corr);
    row := [];
    var j := i + 1;
    while j < |names|
      invariant i + 1 <= j <= |names|
      invariant row == MapPairs(RowPairs(corr, IsDefined, i, j), f)
    {
      var value := corr[i][j];
      RowPairsStep(corr, IsDefined, i, j);
      if value.Some? {
        assert IsDefined(corr[i][j]);
        assert f((i, j)) == Scored(names[i], names[j], Abs(value.value));
        MapPairsSnoc(RowPairs(corr, IsDefined, i, j), (i, j), f);
        row := row + [Scored(names[i], names[j], Abs(value.value))];
      } else {
        assert !IsDefined(corr[i][j]);
      }
      j := j + 1;
    }
  }

  /** The candidates are, for some row-major enumeration ps, the pairs i < j
      of numeric columns whose r is defined — each once and no other — with
      the two names and |r|. */
  lemma CandidatesCorrect(numeric: seq<Column>, r: Pearson)
    ensures var c := Candidates(numeric, r);
      exists ps: seq<Pair> ::
        && |ps| == |c|
        && LexAscending(ps)
        && (forall p :: p in ps <==> p.0 < p.1 < |numeric| && r(numeric[p.0], numeric[p.1]).Some?)
        && (forall k | 0 <= k < |ps| ::
             c[k] == Scored(numeric[ps[k].0].name, numeric[ps[k].1].name,
                            Abs(r(numeric[ps[k].0], numeric[ps[k].1]).value)))
  {
    var m := CorrMatrix(numeric, r);
    var ps := AllPairs(m, IsDefined);
    AllPairsCorrect(m, IsDefined);
    CandidateFields(numeric, r);
    forall p: Pair ensures p in ps <==> p.0 < p.1 < |numeric| && r(numeric[p.0], numeric[p.1]).Some? {
      if p.0 < p.1 < |numeric| {
        assert m[p.0][p.1] == r(numeric[p.0], numeric[p.1]);
      }
    }
  }

  /** Each candidate names two numeric columns i < j with a defined r and
      carries |r|. */
  lemma CandidateFields(numeric: seq<Column>, r: Pearson)
    ensures var m := CorrMatrix(numeric, r);
      var ps := AllPairs(m, IsDefined);
      var c := Candidates(numeric, r);
      forall k | 0 <= k < |ps| ::
        && ps[k].0 < ps[k].1 < |numeric| && r(numeric[ps[k].0], numeric[ps[k].1]).Some?
        && c[k] == Scored(numeric[ps[k].0].name, numeric[ps[k].1].name,
                          Abs(r(numeric[ps[k].0], numeric[ps[k].1]).value))
  {
    var m := CorrMatrix(numeric, r);
    var ps := AllPairs(m, IsDefined);
    AllPairsCorrect(m, IsDefined);
    forall k | 0 <= k < |ps|
      ensures ps[k].0 < ps[k].1 < |numeric| && r(numeric[ps[k].0], numeric[ps[k].1]).Some?
    {
      assert ps[k] in ps;
    }
  }

  /** Every candidate's strength is |r| of a numeric pair, so never negative. */
  lemma CandidatesNonNegative(numeric: seq<Column>, r: Pearson)
    ensures forall s | s in Candidates(numeric, r) :: s.strength >= 0.0
  {
    CandidateFields(numeric, r);
  }

  /** A column of a valid table found by name has one cell per row. */
  lemma CellsOfLength(t: Table, name: string)
    requires Valid(t)
    ensures |CellsOf(t.columns, name)| <= t.rows
  {
    var cells := CellsOf(t.columns, name);
    if cells != [] {
      var c :| c in t.columns && c.name == name && c.cells == cells;
      var j :| 0 <= j < |t.columns| && t.columns[j] == c;
      assert ValidColumn(t.columns[j], t.rows);
    }
  }

  /** Each plot has min(1000, complete rows) points, all drawn from the rows
      where both of its columns hold a number. */
  lemma PlotPoints(t: Table, s: Scored, sample: Sampler)
    requires Valid(t) && IsSampler(sample)
    ensures var complete := CompleteRows(CellsOf(t.columns, s.column1), CellsOf(t.columns, s.column2));
      var p := PlotOf(t, s, sample);
      && |p.dataPoints| == Min(MaxPoints, |complete|)
      && multiset(p.dataPoints) <= multiset(complete)
  {
    CellsOfLength(t, s.column1);
  }

  /** With fewer than two numeric columns there are no plots. Otherwise
      there are at most max_pairs, one per ranked candidate: strongest
      first, each correlation |r| of its pair and so at least 0, every
      candidate left out no stronger than any shown, and min(1000, complete
      rows) points sampled from the complete rows of the pair. */
  lemma ScatterPlotsCorrect(t: Table, r: Pearson, sample: Sampler, maxPairs: nat)
    requires Valid(t) && IsSampler(sample)
    ensures var numeric := NumberColumns(t.columns);
      var plots := ScatterPlotsOf(t, r, sample, maxPairs);
      && (|numeric| < 2 ==> plots == [])
      && |plots| <= maxPairs
      && (forall k, l | 0 <= k < l < |plots| :: plots[k].correlation >= plots[l].correlation)
      && (forall k | 0 <= k < |plots| ::
            && Scored(plots[k].xColumn, plots[k].yColumn, plots[k].correlation) in Candidates(numeric, r)
            && plots[k].correlation >= 0.0)
      && (|numeric| >= 2 ==> forall s | s in Candidates(numeric, r) &&
            s !in Take(SortDesc(Candidates(numeric, r)), maxPairs) ::
            forall k | 0 <= k < |plots| :: plots[k].correlation >= s.strength)
      && (forall k | 0 <= k < |plots| ::
            var complete := CompleteRows(CellsOf(t.columns, plots[k].xColumn), CellsOf(t.columns, plots[k].yColumn));
            && |plots[k].dataPoints| == Min(MaxPoints, |complete|)
            && multiset(plots[k].dataPoints) <= multiset(complete))
  {
    var numeric := NumberColumns(t.columns);
    var plots := ScatterPlotsOf(t, r, sample, maxPairs);
    if |numeric| >= 2 {
      var c := Candidates(numeric, r);
      var top := Take(SortDesc(c), maxPairs);
      TopStrongest(c, maxPairs);
      CandidatesNonNegative(numeric, r);
      forall k | 0 <= k < |plots|
        ensures var complete := CompleteRows(CellsOf(t.columns, plots[k].xColumn), CellsOf(t.columns, plots[k].yColumn));
          && |plots[k].dataPoints| == Min(MaxPoints, |complete|)
          && multiset(plots[k].dataPoints) <= multiset(complete)
        ensures Scored(plots[k].xColumn, plots[k].yColumn, plots[k].correlation) == top[k]
      {
        PlotPoints(t, top[k], sample);
      }
      forall k | 0 <= k < |plots| ensures top[k] in c {
        assert top[k] in top;
      }
    }
  }
}
