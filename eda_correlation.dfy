/**
  get_correlation_matrix: the Pearson matrix of the numeric columns and the
  list of strongly correlated pairs (|r| > 0.7), each pair i < j once, in
  column order.
*/
module EdaCorrelation {
  import opened Wrappers
  import opened EdaTable
  import opened EdaPairs

  /** Pearson's r of two columns over their pairwise complete rows, as
      DataFrame.corr() computes it; None is NaN (too few rows, or a constant
      column). It needs a square root and so is a parameter of the model. */
  type Pearson = (Column, Column) -> Option<real>

  /** What every correlation coefficient satisfies: it is symmetric and, when
      defined, lies in [-1, 1]. */
  ghost predicate IsPearson(r: Pearson) {
    forall a: Column, b: Column ::
      r(a, b) == r(b, a) && (r(a, b).Some? ==> -1.0 <= r(a, b).value <= 1.0)
  }

  function Abs(x: real): (r: real)
    ensures r >= 0.0 && (r == x || r == -x)
  {
    if x < 0.0 then -x else x
  }

  /** The matrix of r over the given columns, row i and column j for the
      i-th and j-th column. */
  function CorrMatrix(cols: seq<Column>, r: Pearson): (m: Matrix)
    ensures |m| == |cols| && Square(m)
    ensures forall i, j | 0 <= i < |cols| && 0 <= j < |cols| :: m[i][j] == r(cols[i], cols[j])
  {
    seq(|cols|, i requires 0 <= i < |cols| =>
      seq(|cols|, j requires 0 <= j < |cols| => r(cols[i], cols[j])))
  }

  /** abs(corr_value) > 0.7; NaN compares false. */
  predicate IsHigh(v: Option<real>) {
    v.Some? && Abs(v.value) > 0.7
  }

  datatype HighCorrelation = HighCorrelation(column1: string, column2: string, correlation: real)

  datatype CorrelationMatrix = CorrelationMatrix(
    columns: seq<string>,
    matrix: Matrix,
    highCorrelations: seq<HighCorrelation>)

  /** The record of pair (i, j) of the matrix over the named columns. Pairs
      outside the matrix, or with a NaN entry, are never looked up. */
  function RecordOf(names: seq<string>, m: Matrix): Pair -> HighCorrelation {
    (p: Pair) =>
      if p.0 < |names| && p.1 < |names| && p.0 < |m| && p.1 < |m[p.0]| && m[p.0][p.1].Some?
      then HighCorrelation(names[p.0], names[p.1], m[p.0][p.1].value)
      else HighCorrelation("", "", 0.0)
  }

  /** What get_correlation_matrix returns for a table with these columns. */
  function CorrelationOf(cols: seq<Column>, r: Pearson): Option<CorrelationMatrix> {
    var numeric := NumberColumns(cols);
    if |numeric| < 2 then None
    else
      var m := CorrMatrix(numeric, r);
      Some(CorrelationMatrix(Names(numeric), m,
        MapPairs(AllPairs(m, IsHigh), RecordOf(Names(numeric), m))))
  }

  /** get_correlation_matrix(df). */
  method GetCorrelationMatrix(t: Table, r: Pearson) returns (result: Option<CorrelationMatrix>)
    ensures result == CorrelationOf(t.columns, r)
  {
    var numericalCols := NumberColumns(t.columns);
    if |numericalCols| < 2 {
      return None;
    }
    var names := Names(numericalCols);
    var corr := CorrMatrix(numericalCols, r);
    var highCorr := HighPairs(names, corr);
    return Some(CorrelationMatrix(names, corr, highCorr));
  }

  /** The nested loops of get_correlation_matrix over the pairs i < j. */
  method HighPairs(names: seq<string>, corr: Matrix) returns (highCorr: seq<HighCorrelation>)
    requires Square(corr) && |names| == |corr|
    ensures highCorr == MapPairs(AllPairs(corr, IsHigh), RecordOf(names, corr))
  {
    highCorr := [];
    var i := 0;
    while i < |names|
      invariant 0 <= i <= |names|
      invariant highCorr == MapPairs(Pairs(corr, IsHigh, i), RecordOf(names, corr))
    {
      var row := HighInRow(names, corr, i);
      MapPairsNextRow(corr, IsHigh, i, highCorr, row, RecordOf(names, corr));
      highCorr := highCorr + row;
      i := i + 1;
    }
  }

  /** The inner loop for row i: the strong pairs (i, j) with i < j. */
  method HighInRow(names: seq<string>, corr: Matrix, i: nat) returns (row: seq<HighCorrelation>)
    requires Square(corr) && |names| == |corr| && i < |corr|
    ensures row == MapPairs(RowPairs(corr, IsHigh, i, |corr|), RecordOf(names, corr))
  {
    ghost var f := RecordOf(names, corr);
    row := [];
    var j := i + 1;
    while j < |names|
      invariant i + 1 <= j <= |names|
      invariant row == MapPairs(RowPairs(corr, IsHigh, i, j), f)
    {
      var value := corr[i][j];
      RowPairsStep(corr, IsHigh, i, j);
      if value.Some? && Abs(value.value) > 0.7 {
        assert IsHigh(corr[i][j]);
        assert f((i, j)) == HighCorrelation(names[i], names[j], value.value);
        MapPairsSnoc(RowPairs(corr, IsHigh, i, j), (i, j), f);
        row := row + [HighCorrelation(names[i], names[j], value.value)];
      } else {
        assert !IsHigh(corr[i][j]);
      }
      j := j + 1;
    }
  }

  /** The matrix is absent exactly when fewer than two numeric columns exist;
      otherwise it is square over those columns, in table order, and entry
      (i, j) is r of the i-th and j-th of them. */
  lemma CorrelationShape(cols: seq<Column>, r: Pearson)
    ensures var c := CorrelationOf(cols, r);
      var numeric := NumberColumns(cols);
      && (c.None? <==> |numeric| < 2)
      && (c.Some? ==>
        && c.value.columns == Names(numeric)
        && |c.value.matrix| == |numeric| && Square(c.value.matrix)
        && forall i, j | 0 <= i < |numeric| && 0 <= j < |numeric| ::
             c.value.matrix[i][j] == r(numeric[i], numeric[j]))
  {
  }

  /** Each record of the strong pairs of a matrix over named columns names
      its two columns and carries their entry. */
  lemma RecordsCorrect(names: seq<string>, m: Matrix)
    requires Square(m) && |names| == |m|
    ensures var ps := AllPairs(m, IsHigh);
      var high := MapPairs(ps, RecordOf(names, m));
      forall k | 0 <= k < |ps| ::
        && ps[k].0 < ps[k].1 < |m| && IsHigh(m[ps[k].0][ps[k].1])
        && high[k] == HighCorrelation(names[ps[k].0], names[ps[k].1], m[ps[k].0][ps[k].1].value)
  {
    var ps := AllPairs(m, IsHigh);
    AllPairsCorrect(m, IsHigh);
    forall k | 0 <= k < |ps| ensures ps[k].0 < ps[k].1 < |m| && IsHigh(m[ps[k].0][ps[k].1]) {
      assert ps[k] in ps;
    }
  }

  /** high_correlations lists, for some row-major enumeration ps of pairs,
      the pairs i < j of numeric columns with |r| > 0.7 — each once and no
      other — with the names of the two columns and r itself. */
  lemma HighCorrelationsCorrect(cols: seq<Column>, r: Pearson)
    requires |NumberColumns(cols)| >= 2
    ensures var numeric := NumberColumns(cols);
      var high := CorrelationOf(cols, r).value.highCorrelations;
      exists ps: seq<Pair> ::
        && |ps| == |high|
        && LexAscending(ps)
        && (forall p :: p in ps <==> p.0 < p.1 < |numeric| && IsHigh(r(numeric[p.0], numeric[p.1])))
        && (forall k | 0 <= k < |ps| ::
             high[k] == HighCorrelation(numeric[ps[k].0].name, numeric[ps[k].1].name,
                                        r(numeric[ps[k].0], numeric[ps[k].1]).value))
  {
    var numeric := NumberColumns(cols);
    var names := Names(numeric);
    var m := CorrMatrix(numeric, r);
    var ps := AllPairs(m, IsHigh);
    AllPairsCorrect(m, IsHigh);
    RecordsCorrect(names, m);
    var high := MapPairs(ps, RecordOf(names, m));
    forall p: Pair ensures p in ps <==> p.0 < p.1 < |numeric| && IsHigh(r(numeric[p.0], numeric[p.1])) {
      if p.0 < p.1 < |numeric| {
        assert m[p.0][p.1] == r(numeric[p.0], numeric[p.1]);
      }
    }
    forall k | 0 <= k < |ps|
      ensures high[k] == HighCorrelation(numeric[ps[k].0].name, numeric[ps[k].1].name,
                                         r(numeric[ps[k].0], numeric[ps[k].1]).value)
    {
      assert m[ps[k].0][ps[k].1] == r(numeric[ps[k].0], numeric[ps[k].1]);
    }
  }

  /** When r is a correlation coefficient, every reported strong correlation
      lies in [-1, -0.7) or (0.7, 1]. */
  lemma HighCorrelationRange(cols: seq<Column>, r: Pearson, h: HighCorrelation)
    requires IsPearson(r) && |NumberColumns(cols)| >= 2
    requires h in CorrelationOf(cols, r).value.highCorrelations
    ensures -1.0 <= h.correlation < -0.7 || 0.7 < h.correlation <= 1.0
  {
    var numeric := NumberColumns(cols);
    var m := CorrMatrix(numeric, r);
    var ps := AllPairs(m, IsHigh);
    var high := MapPairs(ps, RecordOf(Names(numeric), m));
    RecordsCorrect(Names(numeric), m);
    var k :| 0 <= k < |high| && high[k] == h;
    var v := m[ps[k].0][ps[k].1];
    assert v == r(numeric[ps[k].0], numeric[ps[k].1]);
    assert IsHigh(v) && h.correlation == v.value;
  }

  /** When r is a correlation coefficient, the matrix is symmetric. */
  lemma MatrixSymmetric(cols: seq<Column>, r: Pearson)
    requires IsPearson(r) && |NumberColumns(cols)| >= 2
    ensures var m := CorrelationOf(cols, r).value.matrix;
      forall i, j | 0 <= i < |m| && 0 <= j < |m| :: m[i][j] == m[j][i]
  {
    var numeric := NumberColumns(cols);
    var m := CorrelationOf(cols, r).value.matrix;
    forall i, j | 0 <= i < |m| && 0 <= j < |m| ensures m[i][j] == m[j][i] {
      assert r(numeric[i], numeric[j]) == r(numeric[j], numeric[i]);
    }
  }
}
