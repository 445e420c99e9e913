/**
 * EDAService.remove_columns_and_save: the requested names are all checked
 * before anything else; then the table is projected onto the other columns
 * and written next to the original as stem + "_eda" + suffix.
 */
module EdaColumnEditor {
  import opened Wrappers
  import opened EdaTable
  import opened EdaLoader

  datatype EditError =
    | LoadFailed(cause: LoadError)
    | ColumnsNotFound(names: seq<string>)

  /** The tuple the editor returns: the new file name, the cleaned table, the
      names reported as removed and the names that remain. */
  datatype Removal = Removal(newName: string, table: Table, removed: seq<string>, remaining: seq<string>)

  /** The columns df.drop keeps: those whose name is not to be removed. */
  function Kept(remove: seq<string>): Column -> bool {
    (c: Column) => c.name !in remove
  }

  /** Validation and projection of an already loaded table. */
  function RemoveColumns(t: Table, name: string, remove: seq<string>): Result<Removal, EditError> {
    var original := Names(t.columns);
    var invalid := Filter(remove, x => x !in original);
    if invalid != [] then Failure(ColumnsNotFound(invalid))
    else
      var cleaned := Table(t.rows, Filter(t.columns, Kept(remove)));
      Success(Removal(DerivedName(name), cleaned, Filter(remove, x => x in original), Names(cleaned.columns)))
  }

  /** Everything the editor computes before it writes: load, then validate
      and project. */
  function EditPlan(files: map<string, Content>, name: string, remove: seq<string>): Result<Removal, EditError> {
    match LoadDataset(files, name)
    case Failure(e) => Failure(LoadFailed(e))
    case Success(t) => RemoveColumns(t, name, remove)
  }

  /** The writing tail: the writer is chosen by the suffix as it stands, not
      lower-cased; any other suffix writes nothing. */
  function SaveDerived(out: map<string, Content>, name: string, t: Table): map<string, Content> {
    match FormatOf(Suffix(name))
    case None => out
    case Some(f) => out[DerivedName(name) := Written(f, t)]
  }

  /** remove_columns_and_save(file_path, columns_to_remove, output_dir). */
  method RemoveColumnsAndSave(src: DatasetDir, name: string, remove: seq<string>, out: DatasetDir)
    returns (r: Result<Removal, EditError>)
    modifies out
    ensures r == EditPlan(old(src.files), name, remove)
    ensures out.files == if r.Success? then SaveDerived(old(out.files), name, r.value.table) else old(out.files)
  {
    var loaded := src.Load(name);
    if loaded.Failure? {
      return Failure(LoadFailed(loaded.error));
    }
    r := RemoveColumns(loaded.value, name, remove);
    if r.Success? {
      Save(out, name, r.value.newName, r.value.table);
    }
  }

  /** The writing tail of remove_columns_and_save: the writer chosen by the
      suffix of the original name. */
  method Save(out: DatasetDir, name: string, newName: string, cleaned: Table)
    requires newName == DerivedName(name)
    modifies out
    ensures out.files == SaveDerived(old(out.files), name, cleaned)
  {
    var extension := Suffix(name);
    assert SaveDerived(out.files, name, cleaned) ==
      if FormatOf(extension).None? then out.files else out.files[newName := Written(FormatOf(extension).value, cleaned)];
    if extension == ".csv" {
      assert FormatOf(extension) == Some(Csv);
      out.files := out.files[newName := Written(Csv, cleaned)];
    } else if extension == ".xlsx" || extension == ".xls" {
      assert FormatOf(extension) == Some(Excel);
      out.files := out.files[newName := Written(Excel, cleaned)];
    } else if extension == ".json" {
      assert FormatOf(extension) == Some(Json);
      out.files := out.files[newName := Written(Json, cleaned)];
    } else if extension == ".parquet" {
      assert FormatOf(extension) == Some(Parquet);
      out.files := out.files[newName := Written(Parquet, cleaned)];
    } else {
      assert FormatOf(extension) == None;
    }
  }

  // ---------------------------------------------------------------------------
  // What the editor promises
  // ---------------------------------------------------------------------------

  lemma {:induction false} NamesFilter(cols: seq<Column>, p: Column -> bool, q: string -> bool)
    requires forall c :: p(c) == q(c.name)
    ensures Names(Filter(cols, p)) == Filter(Names(cols), q)
  {
    if cols != [] {
      var init, last := cols[..|cols| - 1], cols[|cols| - 1];
      assert cols == init + [last];
      NamesFilter(init, p, q);
      FilterSnoc(init, last, p);
      NamesSnoc(init, last);
      FilterSnoc(Names(init), last.name, q);
      NamesSnoc(Filter(init, p), last);
    }
  }

  /** The request fails exactly when some requested name is not a column; the
      error then lists every such name, as often as it was requested and in
      request order. On success every requested name is reported as removed,
      duplicates included, the rows are untouched, and the remaining columns
      are the original ones without the requested names, with their cells and
      in their original order. */
  lemma RemoveColumnsCorrect(t: Table, name: string, remove: seq<string>)
    requires DistinctNames(t.columns)
    ensures var r := RemoveColumns(t, name, remove);
      && (r.Failure? <==> exists x | x in remove :: x !in Names(t.columns))
      && (r.Failure? ==>
            && r.error.names == Filter(remove, x => x !in Names(t.columns))
            && (forall x :: x in r.error.names <==> x in remove && x !in Names(t.columns))
            && (forall x | x !in Names(t.columns) :: multiset(r.error.names)[x] == multiset(remove)[x]))
      && (r.Success? ==>
            && r.value.newName == DerivedName(name)
            && r.value.removed == remove
            && r.value.table.rows == t.rows
            && (forall c :: c in r.value.table.columns <==> c in t.columns && c.name !in remove)
            && r.value.remaining == Names(r.value.table.columns)
            && r.value.remaining == Filter(Names(t.columns), x => x !in remove)
            && (forall i, j | 0 <= i < j < |r.value.remaining| ::
                  IndexOf(Names(t.columns), r.value.remaining[i]) < IndexOf(Names(t.columns), r.value.remaining[j])))
  {
    var original := Names(t.columns);
    var invalid := Filter(remove, x => x !in original);
    forall x ensures multiset(invalid)[x] == if x !in original then multiset(remove)[x] else 0 {
      FilterCounts(remove, x => x !in original, x);
    }
    if invalid == [] {
      FilterAll(remove, x => x in original);
      NamesFilter(t.columns, Kept(remove), x => x !in remove);
      FilterKeepsOrder(original, x => x !in remove);
      forall c | c in t.columns && c.name !in remove
        ensures c in Filter(t.columns, Kept(remove))
      {
        var i :| 0 <= i < |t.columns| && t.columns[i] == c;
      }
    } else {
      assert invalid[0] in invalid;
    }
  }

  /** Loading the source comes first: when it fails, its error is returned and
      nothing is written; otherwise the outcome is that of RemoveColumns. */
  lemma EditPlanOrder(files: map<string, Content>, name: string, remove: seq<string>)
    ensures LoadDataset(files, name).Failure? ==> EditPlan(files, name, remove) == Failure(LoadFailed(LoadDataset(files, name).error))
    ensures LoadDataset(files, name).Success? ==> EditPlan(files, name, remove) == RemoveColumns(files[name].table, name, remove)
  {
  }

  /** With a lower-case known suffix the derived file reads back as the
      cleaned table. */
  lemma SaveRoundTrip(out: map<string, Content>, name: string, t: Table)
    requires FormatOf(Suffix(name)).Some?
    ensures LoadDataset(SaveDerived(out, name, t), DerivedName(name)) == Success(t)
  {
    DerivedKeepsSuffix(name);
    KnownExtensionsAreLower(Suffix(name));
  }

  /** A suffix the loader accepts only after lower-casing makes the editor
      succeed without writing anything. */
  lemma UpperCaseSuffixNotSaved(out: map<string, Content>, name: string, t: Table)
    requires FormatOf(Lower(Suffix(name))).Some? && FormatOf(Suffix(name)).None?
    ensures SaveDerived(out, name, t) == out
  {
  }

  /** "X.CSV" loads, the new name "X_eda.CSV" is returned, and no file of that
      name exists afterwards. */
  lemma UpperCaseSuffixExample(t: Table)
    requires DistinctNames(t.columns) && "a" in Names(t.columns)
    ensures var files := map["X.CSV" := Written(Csv, t)];
      var r := EditPlan(files, "X.CSV", ["a"]);
      && r.Success? && r.value.newName == "X_eda.CSV"
      && SaveDerived(files, "X.CSV", r.value.table) == files
      && LoadDataset(SaveDerived(files, "X.CSV", r.value.table), "X_eda.CSV") == Failure(FileNotFound("X_eda.CSV"))
  {
    var files := map["X.CSV" := Written(Csv, t)];
    UpperCaseEdit(t);
    var r := EditPlan(files, "X.CSV", ["a"]);
    UpperCaseNoWrite(files, r.value.table);
    NoDerivedFile(files, r.value.table);
  }

  lemma UpperCaseEdit(t: Table)
    requires DistinctNames(t.columns) && "a" in Names(t.columns)
    ensures var r := EditPlan(map["X.CSV" := Written(Csv, t)], "X.CSV", ["a"]);
      r.Success? && r.value.newName == "X_eda.CSV"
  {
    UpperCaseName();
    UpperCaseSuffixLoads(t);
    RemoveColumnsCorrect(t, "X.CSV", ["a"]);
  }

  lemma UpperCaseNoWrite(out: map<string, Content>, u: Table)
    ensures SaveDerived(out, "X.CSV", u) == out
  {
    UpperCaseName();
  }

  lemma NoDerivedFile(files: map<string, Content>, u: Table)
    requires files.Keys == {"X.CSV"}
    ensures LoadDataset(SaveDerived(files, "X.CSV", u), "X_eda.CSV") == Failure(FileNotFound("X_eda.CSV"))
  {
    UpperCaseNoWrite(files, u);
    DerivedUpperCaseName();
    assert "X_eda.CSV" !in files by {
      assert "X_eda.CSV"[1] != "X.CSV"[1];
    }
    MissingFile(files, "X_eda.CSV");
  }

  lemma MissingFile(files: map<string, Content>, name: string)
    requires FormatOf(Lower(Suffix(name))).Some? && name !in files
    ensures LoadDataset(files, name) == Failure(FileNotFound(name))
  {
  }

  /** The writer picked from the lower-cased suffix, as the loader picks it. */
  function SaveDerivedLowered(out: map<string, Content>, name: string, t: Table): map<string, Content> {
    match FormatOf(Lower(Suffix(name)))
    case None => out
    case Some(f) => out[DerivedName(name) := Written(f, t)]
  }

  /** With the lower-cased choice, every file the loader accepts yields a
      derived file that reads back as the cleaned table. */
  lemma LoweredSaveRoundTrip(out: map<string, Content>, name: string, t: Table)
    requires FormatOf(Lower(Suffix(name))).Some?
    ensures LoadDataset(SaveDerivedLowered(out, name, t), DerivedName(name)) == Success(t)
  {
    DerivedKeepsSuffix(name);
  }

  // ---------------------------------------------------------------------------
  // Column counts reported by the HTTP layer
  // ---------------------------------------------------------------------------

  /** original_columns as the removal endpoint reports it. */
  function ReportedOriginalColumns(r: Removal): nat {
    |r.removed| + |r.remaining|
  }

  /** The number of original columns recovered from a removal: the distinct
      removed names plus the remaining ones. */
  function OriginalColumnCount(r: Removal): nat {
    |set x | x in r.removed| + |r.remaining|
  }

  lemma {:induction false} FilterOutCount(s: seq<string>, p: string -> bool, out: set<string>)
    requires forall i, j | 0 <= i < j < |s| :: s[i] != s[j]
    requires forall x :: p(x) <==> x !in out
    ensures |Filter(s, p)| + |out * (set x | x in s)| == |s|
  {
    if s != [] {
      var init, last := s[..|s| - 1], s[|s| - 1];
      FilterOutCount(init, p, out);
      assert s == init + [last];
      FilterSnoc(init, last, p);
      var before := set x | x in init;
      assert last !in before;
      ElementsSnoc(init, last);
      OutCountStep(before, out, last);
    }
  }

  lemma OutCountStep(before: set<string>, out: set<string>, last: string)
    requires last !in before
    ensures |out * (before + {last})| == |out * before| + (if last in out then 1 else 0)
  {
    if last in out {
      assert out * (before + {last}) == out * before + {last};
    } else {
      assert out * (before + {last}) == out * before;
    }
  }

  lemma DistinctNamesSeq(cols: seq<Column>)
    requires DistinctNames(cols)
    ensures forall i, j | 0 <= i < j < |Names(cols)| :: Names(cols)[i] != Names(cols)[j]
  {
  }

  /** The recovered count is the table's column count, whatever the request
      repeats. */
  lemma OriginalColumnCountCorrect(t: Table, name: string, remove: seq<string>)
    requires DistinctNames(t.columns)
    requires RemoveColumns(t, name, remove).Success?
    ensures OriginalColumnCount(RemoveColumns(t, name, remove).value) == |t.columns|
  {
    var r := RemoveColumns(t, name, remove).value;
    RemoveColumnsCorrect(t, name, remove);
    var out := set x | x in remove;
    DistinctNamesSeq(t.columns);
    FilterOutCount(Names(t.columns), x => x !in remove, out);
    assert out * (set x | x in Names(t.columns)) == out;
  }

  /** Repeating a name in the request makes the reported count exceed the
      table's: two columns, "a" requested twice, three reported. */
  lemma ReportedOvercountExample(a: Column, b: Column, name: string)
    requires a.name == "a" && b.name == "b"
    ensures var t := Table(0, [a, b]);
      var r := RemoveColumns(t, name, ["a", "a"]);
      r.Success? && ReportedOriginalColumns(r.value) == 3 && |t.columns| == 2
  {
    var t := Table(0, [a, b]);
    assert Names([a, b]) == ["a", "b"];
    RemoveColumnsCorrect(t, name, ["a", "a"]);
    FilterSnoc([], a, Kept(["a", "a"]));
    FilterSnoc([a], b, Kept(["a", "a"]));
    assert [a] + [b] == [a, b];
  }
}
