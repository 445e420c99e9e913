/**
 * EDAService.load_dataset: the reader is chosen by the file name's suffix,
 * compared after lower-casing; any other suffix is rejected. The suffix and
 * stem are those of the path's last component, as pathlib takes them, and
 * the derived names of the column editor are built from them.
 */
module EdaLoader {
  import opened Wrappers
  import opened EdaTable

  // ---------------------------------------------------------------------------
  // File names
  // ---------------------------------------------------------------------------

  /** str.rfind(c): the last index of c in s, or -1. */
  function RFind(s: string, c: char): (r: int)
    ensures -1 <= r < |s|
    ensures r == -1 ==> c !in s
    ensures r >= 0 ==> s[r] == c && c !in s[r + 1..]
  {
    if s == [] then -1
    else if s[|s| - 1] == c then |s| - 1
    else
      assert s == s[..|s| - 1] + [s[|s| - 1]];
      RFind(s[..|s| - 1], c)
  }

  /** Path.name: the last component of a path, after its last '/'. */
  function BaseName(path: string): (r: string)
    ensures '/' !in r
    ensures '/' !in path ==> r == path
  {
    if '/' !in path then path else path[RFind(path, '/') + 1..]
  }

  /** Path.suffix: from the last '.' of the last component on, when that dot
      is neither the first nor the last character of the component; otherwise
      empty. */
  function Suffix(name: string): (r: string)
    ensures r == [] || (r[0] == '.' && |r| >= 2 && '.' !in r[1..])
    ensures '/' !in r
  {
    var base := BaseName(name);
    var i := RFind(base, '.');
    if 0 < i < |base| - 1 then base[i..] else []
  }

  /** Path.stem: the last component without its suffix. */
  function Stem(name: string): (r: string)
    ensures r + Suffix(name) == BaseName(name)
    ensures '/' !in r
  {
    var base := BaseName(name);
    var i := RFind(base, '.');
    if 0 < i < |base| - 1 then
      assert base == base[..i] + base[i..];
      base[..i]
    else base
  }

  /** The directories before the last component play no part: only the file
      name decides the suffix and the stem. */
  lemma SuffixOfLastComponent(dir: string, name: string)
    requires '/' !in name
    ensures BaseName(dir + "/" + name) == name
    ensures Suffix(dir + "/" + name) == Suffix(name) && Stem(dir + "/" + name) == Stem(name)
  {
    var path := dir + "/" + name;
    RFindAt(path, '/', |dir|);
    assert path[|dir| + 1..] == name;
  }

  /** The name of the file the column editor writes: stem + "_eda" + suffix. */
  function DerivedName(name: string): string {
    Stem(name) + "_eda" + Suffix(name)
  }

  lemma RFindAt(s: string, c: char, k: nat)
    requires k < |s| && s[k] == c && c !in s[k + 1..]
    ensures RFind(s, c) == k
  {
  }

  /** A derived name keeps the suffix of the original, and its stem is the old
      stem followed by "_eda". */
  lemma DerivedKeepsSuffix(name: string)
    requires Suffix(name) != []
    ensures Suffix(DerivedName(name)) == Suffix(name)
    ensures Stem(DerivedName(name)) == Stem(name) + "_eda"
  {
    var stem, suf := Stem(name), Suffix(name);
    var d := DerivedName(name);
    var k := |stem| + 4;
    assert d == (stem + "_eda") + suf;
    assert '/' !in "_eda";
    assert '/' !in d;
    assert d[k] == '.' && d[k + 1..] == suf[1..];
    RFindAt(d, '.', k);
  }

  /** The suffix and stem of a file name whose last dot is at i. */
  lemma SuffixAt(name: string, i: nat)
    requires '/' !in name && 0 < i < |name| - 1 && name[i] == '.' && '.' !in name[i + 1..]
    ensures Suffix(name) == name[i..] && Stem(name) == name[..i]
  {
    RFindAt(name, '.', i);
  }

  /** A file name ending in a dot has no suffix. */
  lemma TrailingDotNoSuffix(name: string)
    requires '/' !in name && name != [] && name[|name| - 1] == '.'
    ensures Suffix(name) == [] && Stem(name) == name
  {
    RFindAt(name, '.', |name| - 1);
  }

  /** A name ending in a dot has no suffix, yet its derived name gains one:
      "a." is saved as "a._eda", whose suffix is "._eda". */
  lemma TrailingDotDerivedSuffix(name: string)
    requires '/' !in name && |name| >= 2 && name[|name| - 1] == '.'
    ensures Suffix(name) == [] && DerivedName(name) == name + "_eda"
    ensures Suffix(DerivedName(name)) == "._eda"
  {
    TrailingDotNoSuffix(name);
    var d := name + "_eda";
    assert DerivedName(name) == d;
    assert '/' !in d by {
      assert '/' !in "_eda";
    }
    assert d[|name| - 1] == '.' && d[|name|..] == "_eda" && '.' !in "_eda";
    SuffixAt(d, |name| - 1);
  }


  // ---------------------------------------------------------------------------
  // Formats
  // ---------------------------------------------------------------------------

  /** The file formats pandas reads and writes here. */
  datatype Format = Csv | Excel | Json | Parquet

  /** The if/elif chain on the extension: exact, case-sensitive comparison. */
  function FormatOf(ext: string): (r: Option<Format>)
    ensures r.Some? <==> ext in {".csv", ".xlsx", ".xls", ".json", ".parquet"}
  {
    if ext == ".csv" then Some(Csv)
    else if ext == ".xlsx" || ext == ".xls" then Some(Excel)
    else if ext == ".json" then Some(Json)
    else if ext == ".parquet" then Some(Parquet)
    else None
  }

  /** str.lower() on ASCII letters. */
  function LowerChar(c: char): (r: char)
    ensures ('A' <= c <= 'Z') == (r != c)
  {
    if 'A' <= c <= 'Z' then (c as int + 32) as char else c
  }

  function Lower(s: string): (r: string)
    ensures |r| == |s| && forall i | 0 <= i < |s| :: r[i] == LowerChar(s[i])
  {
    seq(|s|, i requires 0 <= i < |s| => LowerChar(s[i]))
  }

  /** Lower-casing twice changes nothing more. */
  lemma LowerIdempotent(s: string)
    ensures Lower(Lower(s)) == Lower(s)
  {
    forall i | 0 <= i < |s| ensures Lower(Lower(s))[i] == Lower(s)[i] {
      var c := s[i];
      assert 'A' <= c <= 'Z' ==> !('A' <= LowerChar(c) <= 'Z');
    }
  }

  /** Every extension the chain accepts is already lower case. */
  lemma KnownExtensionsAreLower(ext: string)
    requires FormatOf(ext).Some?
    ensures Lower(ext) == ext
  {
    forall i | 0 <= i < |ext| ensures LowerChar(ext[i]) == ext[i] {
      assert ext[i] in ".csvxlsjonparquet";
    }
  }

  // ---------------------------------------------------------------------------
  // The dataset directory and the loader
  // ---------------------------------------------------------------------------

  /** What a file holds: a table as the writer of a format serialized it, or
      bytes no reader accepts. */
  datatype Content = Written(format: Format, table: Table) | Unparseable

  datatype LoadError =
    | UnsupportedFormat(ext: string)
    | FileNotFound(name: string)
    | ParseError(name: string)

  /** load_dataset: the suffix is lower-cased and dispatched; an unknown one
      is a ValueError; missing or unreadable files raise from the reader. */
  function LoadDataset(files: map<string, Content>, name: string): (r: Result<Table, LoadError>)
    ensures r.Success? <==>
      && FormatOf(Lower(Suffix(name))).Some?
      && name in files && files[name].Written?
      && files[name].format == FormatOf(Lower(Suffix(name))).value
    ensures r.Success? ==> r.value == files[name].table
    ensures FormatOf(Lower(Suffix(name))).None? ==> r == Failure(UnsupportedFormat(Lower(Suffix(name))))
  {
    var ext := Lower(Suffix(name));
    match FormatOf(ext)
    case None => Failure(UnsupportedFormat(ext))
    case Some(f) =>
      if name !in files then Failure(FileNotFound(name))
      else if files[name].Unparseable? || files[name].format != f then Failure(ParseError(name))
      else Success(files[name].table)
  }

  lemma UpperCaseName()
    ensures Suffix("X.CSV") == ".CSV" && Lower(".CSV") == ".csv"
    ensures DerivedName("X.CSV") == "X_eda.CSV"
  {
    SuffixAt("X.CSV", 1);
  }

  /** The derived name keeps the upper-case suffix. */
  lemma DerivedUpperCaseName()
    ensures Suffix("X_eda.CSV") == ".CSV" && Lower(".CSV") == ".csv"
  {
    UpperCaseName();
    DerivedKeepsSuffix("X.CSV");
  }

  /** Upper-case suffixes load like lower-case ones. */
  lemma UpperCaseSuffixLoads(t: Table)
    ensures LoadDataset(map["X.CSV" := Written(Csv, t)], "X.CSV") == Success(t)
  {
    UpperCaseName();
  }

  /** A directory of dataset files, keyed by file name. */
  class DatasetDir {
    var files: map<string, Content>

    constructor (files: map<string, Content>)
      ensures this.files == files
    {
      this.files := files;
    }

    /** Reads the named file of this directory with load_dataset. */
    function Load(name: string): (r: Result<Table, LoadError>)
      reads this
      ensures r.Success? ==> name in files && files[name].Written? && files[name].table == r.value
    {
      LoadDataset(files, name)
    }
  }
}
