/**
 * The column profiler: EDAService.analyze_column, get_column_stats,
 * get_overview, get_missing_data_matrix and get_column_info.
 */
module EdaProfiler {
  import opened Wrappers
  import opened EdaTable
  import opened EdaStatistics
  import opened EdaValueCounts
  import opened EdaLoader

  /** The ColumnStats record: the numeric fields are filled for numeric and
      Boolean columns, top_values and mode for the others. top_values keeps
      the dict's insertion order. */
  datatype ColumnStats = ColumnStats(
    columnName: string,
    kind: Kind,
    missingCount: nat,
    missingPercentage: Option<real>,
    uniqueCount: nat,
    mean: Option<real>,
    median: Option<real>,
    std: Option<real>,
    min: Option<real>,
    max: Option<real>,
    q25: Option<real>,
    q75: Option<real>,
    topValues: Option<seq<Entry<string>>>,
    mode: Option<string>)

  /** The sample standard deviation, computed outside the model. */
  type StdDev = seq<real> -> real

  /** The record analyze_column returns for one column. */
  function ColumnProfile(c: Column, std: StdDev): ColumnStats {
    var base := ColumnStats(c.name, c.kind, MissingCount(c.cells),
      Percentage(MissingCount(c.cells), |c.cells|), DistinctCount(c.cells),
      None, None, None, None, None, None, None, None, None);
    if IsNumericDtype(c.kind) then
      var xs := Numbers(c.cells);
      if |xs| == 0 then base
      else base.(mean := Some(Mean(xs)), median := Some(Median(xs)), std := Some(std(xs)),
                 min := Some(MinOf(xs)), max := Some(MaxOf(xs)),
                 q25 := Some(Quantile(xs, 0.25)), q75 := Some(Quantile(xs, 0.75)))
    else
      var words := Texts(c.cells);
      base.(topValues := Some(Take(ValueCounts(words), 10)), mode := Mode(words))
  }

  /** analyze_column(df, col): the record is created with the counts, then
      its statistics fields are assigned one by one. */
  method AnalyzeColumn(c: Column, std: StdDev) returns (s: ColumnStats)
    ensures s == ColumnProfile(c, std)
  {
    s := ColumnStats(c.name, c.kind, MissingCount(c.cells),
      Percentage(MissingCount(c.cells), |c.cells|), DistinctCount(c.cells),
      None, None, None, None, None, None, None, None, None);
    if IsNumericDtype(c.kind) {
      var xs := Numbers(c.cells);
      var allMissing := |xs| == 0;
      s := s.(mean := if allMissing then None else Some(Mean(xs)));
      s := s.(median := if allMissing then None else Some(Median(xs)));
      s := s.(std := if allMissing then None else Some(std(xs)));
      s := s.(min := if allMissing then None else Some(MinOf(xs)));
      s := s.(max := if allMissing then None else Some(MaxOf(xs)));
      s := s.(q25 := if allMissing then None else Some(Quantile(xs, 0.25)));
      s := s.(q75 := if allMissing then None else Some(Quantile(xs, 0.75)));
    } else {
      var words := Texts(c.cells);
      s := s.(topValues := Some(Take(ValueCounts(words), 10)));
      s := s.(mode := Mode(words));
    }
  }

  /** The counts every column gets: the missing percentage is that of the
      missing count over the rows (see PercentageBounds), and the unique count
      counts distinct non-missing values, so it is 0 exactly when every cell
      is missing. */
  lemma ProfileCounts(c: Column, std: StdDev)
    ensures var s := ColumnProfile(c, std);
      && s.columnName == c.name
      && s.missingCount <= |c.cells|
      && s.missingPercentage == Percentage(s.missingCount, |c.cells|)
      && s.uniqueCount <= |c.cells| - s.missingCount
      && (s.uniqueCount == 0 <==> s.missingCount == |c.cells|)
  {
    DistinctCountBounds(c.cells);
  }

  /** A percentage of a part of the rows is the part over the rows times 100,
      between 0 and 100; with no rows it is NaN, here None. */
  lemma PercentageBounds(count: nat, rows: nat)
    requires count <= rows
    ensures Percentage(count, rows).Some? <==> rows > 0
    ensures rows > 0 ==> var p := Percentage(count, rows).value;
      p * rows as real == 100.0 * count as real && 0.0 <= p <= 100.0
  {
    if rows > 0 {
      PercentageOfPart(count, rows);
    }
  }

  lemma PercentageOfPart(count: nat, rows: nat)
    requires 0 < rows && count <= rows
    ensures var p := Percentage(count, rows).value;
      p * rows as real == 100.0 * count as real && 0.0 <= p <= 100.0
  {
    var q := count as real / rows as real;
    assert q * rows as real == count as real;
    assert 0.0 <= q <= 1.0 by {
      assert q * rows as real <= rows as real;
    }
  }

  /** A numeric or Boolean column gets all seven statistics exactly when it
      has a non-missing value, and then they are the mean, the median, the
      standard deviation, the extremes and the quartiles of its values, with
      min <= q25 <= median <= q75 <= max; it gets no top values or mode. */
  lemma ProfileNumeric(c: Column, std: StdDev)
    requires IsNumericDtype(c.kind) && forall i | 0 <= i < |c.cells| :: Fits(c.kind, c.cells[i])
    ensures var s, xs := ColumnProfile(c, std), Numbers(c.cells);
      && s.topValues.None? && s.mode.None?
      && |xs| + MissingCount(c.cells) == |c.cells|
      && (s.mean.None? <==> MissingCount(c.cells) == |c.cells|)
      && s.median.None? == s.mean.None? && s.std.None? == s.mean.None?
      && s.min.None? == s.mean.None? && s.max.None? == s.mean.None?
      && s.q25.None? == s.mean.None? && s.q75.None? == s.mean.None?
      && (s.mean.Some? ==>
            && s.mean.value == Mean(xs) && s.median.value == Median(xs) && s.std.value == std(xs)
            && s.q25.value == Quantile(xs, 0.25) && s.q75.value == Quantile(xs, 0.75)
            && s.min.value in xs && s.max.value in xs
            && s.min.value <= s.q25.value <= s.median.value <= s.q75.value <= s.max.value
            && forall x | x in xs :: s.min.value <= x <= s.max.value)
  {
    NumbersArePresent(c.kind, c.cells);
    var xs := Numbers(c.cells);
    if |xs| > 0 {
      FiveNumbersOrdered(xs);
    }
  }

  /** A text column gets at most ten top values, most frequent first, each a
      distinct value of the column with its number of occurrences; its mode is
      absent exactly when every cell is missing and is otherwise a most
      frequent value; it gets no numeric statistics. */
  lemma ProfileCategorical(c: Column, std: StdDev)
    requires !IsNumericDtype(c.kind) && forall i | 0 <= i < |c.cells| :: Fits(c.kind, c.cells[i])
    ensures var s, words := ColumnProfile(c, std), Texts(c.cells);
      && s.mean.None? && s.median.None? && s.std.None? && s.min.None? && s.max.None?
      && s.q25.None? && s.q75.None?
      && |words| + MissingCount(c.cells) == |c.cells|
      && s.topValues.Some?
      && var top := s.topValues.value;
      && |top| <= 10
      && |top| == Min(10, |set w | w in words|)
      && Descending(top)
      && KeysDistinct(top)
      && (forall i | 0 <= i < |top| :: top[i].0 in words && top[i].1 == multiset(words)[top[i].0])
      && (s.mode.None? <==> MissingCount(c.cells) == |c.cells|)
      && (s.mode.Some? ==>
            && s.mode.value in words
            && forall w | w in words :: multiset(words)[w] <= multiset(words)[s.mode.value])
  {
    NumbersArePresent(c.kind, c.cells);
    var words := Texts(c.cells);
    TopCounts(words, 10);
    if words != [] {
      ModeCorrect(words);
    }
  }

  /** get_column_stats: one record per column, in column order. */
  function GetColumnStats(t: Table, std: StdDev): (r: seq<ColumnStats>)
    ensures |r| == |t.columns|
    ensures forall j | 0 <= j < |r| :: r[j] == ColumnProfile(t.columns[j], std)
  {
    seq(|t.columns|, j requires 0 <= j < |t.columns| => ColumnProfile(t.columns[j], std))
  }

  // ---------------------------------------------------------------------------
  // Overview and duplicate rows
  // ---------------------------------------------------------------------------

  /** The cells of row i, one per column. */
  function Row(t: Table, i: nat): seq<Cell>
    requires Valid(t) && i < t.rows
  {
    seq(|t.columns|, j requires 0 <= j < |t.columns| => t.columns[j].cells[i])
  }

  function RowsOf(t: Table): (r: seq<seq<Cell>>)
    requires Valid(t)
    ensures |r| == t.rows && forall i | 0 <= i < t.rows :: r[i] == Row(t, i)
  {
    seq(t.rows, i requires 0 <= i < t.rows => Row(t, i))
  }

  /** DataFrame.duplicated().sum(): the rows equal to an earlier row; missing
      cells compare equal to each other. */
  function DuplicateCount<T(==)>(rows: seq<T>): nat {
    if rows == [] then 0
    else
      var init := rows[..|rows| - 1];
      DuplicateCount(init) + (if rows[|rows| - 1] in init then 1 else 0)
  }

  /** Every row is either the first of its kind or a duplicate. */
  lemma {:induction false} DuplicatesAndDistinctRows<T>(rows: seq<T>)
    ensures DuplicateCount(rows) + |set r | r in rows| == |rows|
  {
    if rows != [] {
      var init, last := rows[..|rows| - 1], rows[|rows| - 1];
      DuplicatesAndDistinctRows(init);
      assert rows == init + [last];
      assert (set r | r in rows) == (set r | r in init) + {last};
      if last !in init {
        assert last !in (set r | r in init);
      }
    }
  }

  /** df.duplicated().sum(): pandas answers with an empty result for a frame
      without columns, so no row counts as a duplicate there; otherwise the
      rows equal to an earlier row. */
  function DuplicatedRows(t: Table): (n: nat)
    requires Valid(t)
    ensures t.columns == [] ==> n == 0
    ensures t.columns != [] ==> n + |set row | row in RowsOf(t)| == t.rows
  {
    if t.columns == [] then 0
    else
      DuplicatesAndDistinctRows(RowsOf(t));
      DuplicateCount(RowsOf(t))
  }

  /** dtypes: {col: dtype}; a repeated name keeps the later column's dtype. */
  function Dtypes(cols: seq<Column>): (r: map<string, Kind>)
    ensures r.Keys == set c | c in cols :: c.name
  {
    if cols == [] then map[]
    else
      var init := cols[..|cols| - 1];
      assert cols == init + [cols[|cols| - 1]];
      Dtypes(init)[cols[|cols| - 1].name := cols[|cols| - 1].kind]
  }

  datatype DatasetOverview = DatasetOverview(
    filename: string,
    totalRows: nat,
    totalColumns: nat,
    duplicateRows: nat,
    columns: seq<string>,
    dtypes: map<string, Kind>)

  /** get_overview(df, filename). */
  function GetOverview(t: Table, filename: string): (r: DatasetOverview)
    requires Valid(t)
    ensures r.totalColumns == |r.columns| == |t.columns|
    ensures forall j | 0 <= j < |t.columns| ::
      r.columns[j] == t.columns[j].name && r.columns[j] in r.dtypes && r.dtypes[r.columns[j]] == t.columns[j].kind
    ensures r.totalRows == t.rows
    ensures t.columns == [] ==> r.duplicateRows == 0
    ensures t.columns != [] ==> r.duplicateRows + |set row | row in RowsOf(t)| == t.rows
  {
    DtypesOfDistinct(t.columns);
    DatasetOverview(filename, t.rows, |t.columns|, DuplicatedRows(t), Names(t.columns), Dtypes(t.columns))
  }

  lemma {:induction false} DtypesOfDistinct(cols: seq<Column>)
    requires DistinctNames(cols)
    ensures forall j | 0 <= j < |cols| :: cols[j].name in Dtypes(cols) && Dtypes(cols)[cols[j].name] == cols[j].kind
  {
    if cols != [] {
      var n := |cols| - 1;
      var init, last := cols[..n], cols[n];
      assert cols == init + [last];
      DtypesOfDistinct(init);
      DtypesSnoc(Dtypes(init), init, last);
    }
  }

  /** Adding a column of a new name keeps the dtypes of the others. */
  lemma DtypesSnoc(d: map<string, Kind>, init: seq<Column>, last: Column)
    requires forall j | 0 <= j < |init| :: init[j].name in d && d[init[j].name] == init[j].kind
    requires forall j | 0 <= j < |init| :: init[j].name != last.name
    ensures var cols, e := init + [last], d[last.name := last.kind];
      forall j | 0 <= j < |cols| :: cols[j].name in e && e[cols[j].name] == cols[j].kind
  {
  }

  // ---------------------------------------------------------------------------
  // Missing-data matrix
  // ---------------------------------------------------------------------------

  datatype MissingDataMatrix = MissingDataMatrix(
    columns: seq<string>,
    missingCounts: seq<nat>,
    missingPercentages: seq<Option<real>>,
    totalRows: nat)

  /** get_missing_data_matrix(df). */
  function GetMissingDataMatrix(t: Table): (r: MissingDataMatrix)
    ensures |r.columns| == |r.missingCounts| == |r.missingPercentages| == |t.columns|
    ensures r.totalRows == t.rows
  {
    var cols := t.columns;
    MissingDataMatrix(
      Names(cols),
      seq(|cols|, j requires 0 <= j < |cols| => MissingCount(cols[j].cells)),
      seq(|cols|, j requires 0 <= j < |cols| => Percentage(MissingCount(cols[j].cells), t.rows)),
      t.rows)
  }

  /** Each column's entry counts its missing cells, and its percentage is
      the percentage of that count over the rows (see PercentageBounds). */
  lemma MissingDataMatrixCorrect(t: Table, j: nat)
    requires Valid(t) && j < |t.columns|
    ensures var r, c := GetMissingDataMatrix(t), t.columns[j];
      && r.columns[j] == c.name
      && r.missingCounts[j] == |c.cells| - |Present(c.cells)| <= t.rows
      && r.missingPercentages[j] == Percentage(r.missingCounts[j], t.rows)
  {
  }

  // ---------------------------------------------------------------------------
  // Column information of a stored dataset
  // ---------------------------------------------------------------------------

  /** One entry of get_column_info's "columns" list. */
  datatype ColumnEntry = ColumnEntry(
    columnName: string,
    kind: Kind,
    uniqueCount: nat,
    missingCount: nat,
    missingPercentage: Option<real>,
    isNumeric: bool,
    sampleValues: seq<Datum>)

  datatype ColumnInfo = ColumnInfo(totalColumns: nat, totalRows: nat, columns: seq<ColumnEntry>)

  /** The entry of one column of a table of the given number of rows. */
  function EntryOf(c: Column, rows: nat): ColumnEntry {
    ColumnEntry(c.name, c.kind, DistinctCount(c.cells), MissingCount(c.cells),
      Percentage(MissingCount(c.cells), rows), IsNumericDtype(c.kind), Take(Present(c.cells), 3))
  }

  /** get_column_info(file_path): the dataset is loaded, then one entry per
      column is appended. */
  method GetColumnInfo(dir: DatasetDir, name: string) returns (r: Result<ColumnInfo, LoadError>)
    ensures LoadDataset(dir.files, name).Failure? ==> r == Failure(LoadDataset(dir.files, name).error)
    ensures LoadDataset(dir.files, name).Success? ==>
      var t := LoadDataset(dir.files, name).value;
      && r.Success? && r.value.totalColumns == |t.columns| && r.value.totalRows == t.rows
      && |r.value.columns| == |t.columns|
      && forall j | 0 <= j < |t.columns| :: r.value.columns[j] == EntryOf(t.columns[j], t.rows)
  {
    var loaded := dir.Load(name);
    if loaded.Failure? {
      return Failure(loaded.error);
    }
    var t := loaded.value;
    var entries := ColumnEntries(t.columns, t.rows);
    r := Success(ColumnInfo(|t.columns|, t.rows, entries));
  }

  /** The loop of get_column_info: one entry per column, in column order. */
  method ColumnEntries(cols: seq<Column>, rows: nat) returns (entries: seq<ColumnEntry>)
    ensures |entries| == |cols|
    ensures forall j | 0 <= j < |cols| :: entries[j] == EntryOf(cols[j], rows)
  {
    entries := [];
    var j := 0;
    while j < |cols|
      invariant 0 <= j <= |cols|
      invariant |entries| == j
      invariant forall k | 0 <= k < j :: entries[k] == EntryOf(cols[k], rows)
    {
      entries := entries + [EntryOf(cols[j], rows)];
      j := j + 1;
    }
  }

  /** An entry reports whether the column is numeric (Booleans are), at most
      three non-missing sample values in row order, and counts consistent with
      the column. */
  lemma EntryOfCorrect(c: Column, rows: nat)
    requires ValidColumn(c, rows)
    ensures var e := EntryOf(c, rows);
      && e.isNumeric == (c.kind in {Numeric, Boolean})
      && e.sampleValues == Present(c.cells)[..Min(3, |Present(c.cells)|)]
      && |e.sampleValues| == Min(3, rows - e.missingCount)
      && e.uniqueCount <= rows - e.missingCount
      && e.missingPercentage == Percentage(e.missingCount, rows)
  {
    DistinctCountBounds(c.cells);
  }
}
