/**
 * EDAService.get_histogram_data: for each of the first numeric columns with a
 * value, numpy.histogram with ceil(log2 n) + 1 equal-width bins, at most 50.
 */
module EdaHistogram {
  import opened Wrappers
  import opened RealArith
  import opened EdaTable
  import opened EdaStatistics

  function Pow2(k: nat): (r: nat)
    ensures r >= 1
  {
    if k == 0 then 1 else 2 * Pow2(k - 1)
  }

  lemma {:induction false} Pow2Monotone(a: nat, b: nat)
    requires a <= b
    ensures Pow2(a) <= Pow2(b)
  {
    if a < b {
      Pow2Monotone(a, b - 1);
    }
  }

  /** ceil(log2 n): the least k with 2^k >= n. */
  function CeilLog2(n: nat): (k: nat)
    requires n >= 1
    ensures Pow2(k) >= n
    ensures k > 0 ==> Pow2(k - 1) < n
    decreases n
  {
    if n == 1 then 0 else 1 + CeilLog2((n + 1) / 2)
  }

  /** Only one k satisfies the two bounds of CeilLog2. */
  lemma CeilLog2Unique(n: nat, k: nat)
    requires n >= 1 && Pow2(k) >= n && (k > 0 ==> Pow2(k - 1) < n)
    ensures k == CeilLog2(n)
  {
    var c := CeilLog2(n);
    if k < c {
      Pow2Monotone(k, c - 1);
    } else if c < k {
      Pow2Monotone(c, k - 1);
    }
  }

  /** min(int(ceil(log2(n) + 1)), 50). */
  function BinCount(n: nat): (b: nat)
    requires n >= 1
    ensures 1 <= b <= 50
  {
    Min(CeilLog2(n) + 1, 50)
  }

  lemma BinCountExamples()
    ensures BinCount(1) == 1 && BinCount(2) == 2 && BinCount(9) == 5 && BinCount(1000) == 11
  {
    CeilLog2Unique(9, 4);
    CeilLog2Unique(1000, 10);
  }

  /** numpy widens an empty range to half a unit on either side. */
  function Range(lo: real, hi: real): (r: (real, real))
    requires lo <= hi
    ensures r.0 < r.1 && r.0 <= lo && hi <= r.1
    ensures lo < hi ==> r == (lo, hi)
    ensures lo == hi ==> r == (lo - 0.5, hi + 0.5)
  {
    if lo == hi then (lo - 0.5, hi + 0.5) else (lo, hi)
  }

  /** The width of each of b equal bins over [lo, hi]. */
  function Width(lo: real, hi: real, b: nat): (w: real)
    requires lo < hi && b >= 1
    ensures w > 0.0 && w * b as real == hi - lo
  {
    (hi - lo) / b as real
  }

  /** The b + 1 bin edges, as numpy.linspace lays them out; the last is hi. */
  function Edges(lo: real, hi: real, b: nat): (e: seq<real>)
    requires lo < hi && b >= 1
    ensures |e| == b + 1
  {
    seq(b + 1, i requires 0 <= i <= b => if i == b then hi else lo + i as real * Width(lo, hi, b))
  }

  lemma EdgeAt(lo: real, hi: real, b: nat, i: nat)
    requires lo < hi && b >= 1 && i <= b
    ensures Edges(lo, hi, b)[i] == lo + i as real * Width(lo, hi, b)
  {
  }

  /** The edges rise strictly from lo to hi. */
  lemma EdgesAscending(lo: real, hi: real, b: nat)
    requires lo < hi && b >= 1
    ensures var e := Edges(lo, hi, b);
      e[0] == lo && e[b] == hi && forall i | 0 <= i < b :: e[i] < e[i + 1]
  {
    var e, w := Edges(lo, hi, b), Width(lo, hi, b);
    forall i | 0 <= i < b ensures e[i] < e[i + 1] {
      MulLess(i as real, (i + 1) as real, w);
      EdgeAt(lo, hi, b, b);
    }
  }

  /** The bin of x: the floor of (x - lo) / width, the closed last bin
      taking hi. */
  function BinIndex(x: real, lo: real, hi: real, b: nat): (k: nat)
    requires lo <= x <= hi && lo < hi && b >= 1
    ensures k < b
  {
    if x == hi then b - 1
    else
      var f := ((x - lo) / Width(lo, hi, b)).Floor;
      if f < 0 then 0 else Min(f, b - 1)
  }

  lemma DivTimes(d: real, w: real)
    requires w > 0.0
    ensures (d / w) * w == d
  {
  }

  lemma FloorOf(u: real)
    requires u >= 0.0
    ensures 0 <= u.Floor && u.Floor as real <= u < (u.Floor + 1) as real
  {
  }

  lemma ScaleBetween(a: real, u: real, c: real, w: real, d: real)
    requires w > 0.0 && a <= u < c && u * w == d
    ensures a * w <= d < c * w
  {
    MulLess(u, c, w);
    if a < u {
      MulLess(a, u, w);
    }
  }

  /** The floor of d / w counts the whole widths w in d. */
  lemma FloorBounds(d: real, w: real)
    requires w > 0.0 && d >= 0.0
    ensures var f := (d / w).Floor;
      0 <= f && f as real * w <= d < (f + 1) as real * w
  {
    var u := d / w;
    DivTimes(d, w);
    FloorOf(u);
    var f := u.Floor;
    ScaleBetween(f as real, u, (f + 1) as real, w, d);
  }

  lemma FloorBelow(d: real, w: real, b: nat)
    requires w > 0.0 && 0.0 <= d < b as real * w
    ensures (d / w).Floor < b
  {
    FloorBounds(d, w);
  }

  /** Each value falls in the half-open bin between two consecutive edges, or
      is the upper end of the range and falls in the last bin. */
  lemma BinIndexCorrect(x: real, lo: real, hi: real, b: nat)
    requires lo <= x <= hi && lo < hi && b >= 1
    ensures var k, e := BinIndex(x, lo, hi, b), Edges(lo, hi, b);
      e[k] <= x && (x < e[k + 1] || (x == hi && k == b - 1))
  {
    var w := Width(lo, hi, b);
    EdgesAscending(lo, hi, b);
    if x < hi {
      var d := x - lo;
      FloorBounds(d, w);
      FloorBelow(d, w, b);
      var f := (d / w).Floor;
      assert BinIndex(x, lo, hi, b) == f;
      EdgeAt(lo, hi, b, f);
      EdgeAt(lo, hi, b, f + 1);
    }
  }

  function SumNat(s: seq<nat>): nat {
    if s == [] then 0 else s[0] + SumNat(s[1..])
  }

  lemma {:induction false} SumNatUpdate(s: seq<nat>, i: nat, v: nat)
    requires i < |s|
    ensures SumNat(s[i := v]) + s[i] == SumNat(s) + v
  {
    if i > 0 {
      SumNatUpdate(s[1..], i - 1, v);
      assert s[i := v][1..] == s[1..][i - 1 := v];
    }
  }

  lemma {:induction false} SumNatZeros(b: nat)
    ensures SumNat(seq(b, _ => 0)) == 0
  {
    if b > 0 {
      SumNatZeros(b - 1);
      assert seq(b, _ => 0)[1..] == seq(b - 1, _ => 0);
    }
  }

  /** numpy.histogram's counts: one per bin, each value counted in its bin. */
  function BinCounts(xs: seq<real>, lo: real, hi: real, b: nat): (r: seq<nat>)
    requires lo < hi && b >= 1 && forall x | x in xs :: lo <= x <= hi
    ensures |r| == b
  {
    if xs == [] then seq(b, _ => 0)
    else
      var init, x := xs[..|xs| - 1], xs[|xs| - 1];
      assert forall y | y in init :: y in xs;
      assert x in xs;
      var r := BinCounts(init, lo, hi, b);
      var k := BinIndex(x, lo, hi, b);
      r[k := r[k] + 1]
  }

  /** The counts add up to the number of values. */
  lemma {:induction false} BinCountsSum(xs: seq<real>, lo: real, hi: real, b: nat)
    requires lo < hi && b >= 1 && forall x | x in xs :: lo <= x <= hi
    ensures SumNat(BinCounts(xs, lo, hi, b)) == |xs|
  {
    if xs == [] {
      SumNatZeros(b);
    } else {
      var init, x := xs[..|xs| - 1], xs[|xs| - 1];
      assert forall y | y in init :: y in xs;
      assert x in xs;
      BinCountsSum(init, lo, hi, b);
      var r := BinCounts(init, lo, hi, b);
      var k := BinIndex(x, lo, hi, b);
      SumNatUpdate(r, k, r[k] + 1);
    }
  }

  /** Whether a value lies in bin k of b bins with edges e: from e[k]
      included to e[k + 1] excluded, the last bin also taking e[b]. */
  function InBin(e: seq<real>, b: nat, k: nat): real -> bool
    requires |e| == b + 1 && k < b
  {
    x => e[k] <= x && (x < e[k + 1] || (k == b - 1 && x == e[b]))
  }

  /** Edges further right are no lower. */
  lemma EdgesMonotone(lo: real, hi: real, b: nat, i: nat, j: nat)
    requires lo < hi && b >= 1 && i <= j <= b
    ensures Edges(lo, hi, b)[i] <= Edges(lo, hi, b)[j]
  {
    EdgeAt(lo, hi, b, i);
    EdgeAt(lo, hi, b, j);
    if i < j {
      MulLess(i as real, j as real, Width(lo, hi, b));
    }
  }

  /** BinIndex puts a value in bin k exactly when the value lies between
      that bin's edges: the bins do not overlap. */
  lemma BinIndexIff(x: real, lo: real, hi: real, b: nat, k: nat)
    requires lo <= x <= hi && lo < hi && b >= 1 && k < b
    ensures BinIndex(x, lo, hi, b) == k <==> InBin(Edges(lo, hi, b), b, k)(x)
  {
    var e, j := Edges(lo, hi, b), BinIndex(x, lo, hi, b);
    BinIndexCorrect(x, lo, hi, b);
    assert e[b] == hi by {
      EdgesAscending(lo, hi, b);
    }
    assert InBin(e, b, j)(x);
    if j != k && InBin(e, b, k)(x) {
      // the lower of the two bins is not the last, so x lies below its upper
      // edge, which is at most the lower edge of the other bin
      var m, n := if j < k then j else k, if j < k then k else j;
      assert InBin(e, b, m)(x) && InBin(e, b, n)(x);
      EdgesMonotone(lo, hi, b, m + 1, n);
    }
  }

  /** Each count is the number of values between the edges of its bin. */
  lemma {:induction false} BinCountsExact(xs: seq<real>, lo: real, hi: real, b: nat, k: nat)
    requires lo < hi && b >= 1 && forall x | x in xs :: lo <= x <= hi
    requires k < b
    ensures BinCounts(xs, lo, hi, b)[k] == |Filter(xs, InBin(Edges(lo, hi, b), b, k))|
  {
    if xs != [] {
      var init, x := xs[..|xs| - 1], xs[|xs| - 1];
      assert forall y | y in init :: y in xs;
      assert x in xs;
      BinCountsExact(init, lo, hi, b, k);
      BinIndexIff(x, lo, hi, b, k);
      FilterSnoc(init, x, InBin(Edges(lo, hi, b), b, k));
      assert xs == init + [x];
    }
  }

  /** One HistogramData record; bins holds the edges. */
  datatype HistogramData = HistogramData(
    column: string,
    bins: seq<real>,
    counts: seq<nat>,
    mean: real,
    median: real,
    std: real)

  /** numpy.histogram(series, bins=n_bins) and the summary statistics of the
      values of one column. */
  function HistogramOfValues(name: string, xs: seq<real>, std: seq<real> -> real): HistogramData
    requires xs != []
  {
    var b := BinCount(|xs|);
    var range := Range(MinOf(xs), MaxOf(xs));
    HistogramData(name, Edges(range.0, range.1, b), BinCounts(xs, range.0, range.1, b),
                  Mean(xs), Median(xs), std(xs))
  }

  /** The histogram of one column, or None when it has no value. */
  function HistogramOf(c: Column, std: seq<real> -> real): (r: Option<HistogramData>)
    ensures r.None? <==> Numbers(c.cells) == []
  {
    var xs := Numbers(c.cells);
    if xs == [] then None else Some(HistogramOfValues(c.name, xs, std))
  }

  /** b + 1 edges that rise strictly from lo to hi. */
  predicate RisingEdges(e: seq<real>, lo: real, hi: real, b: nat) {
    && |e| == b + 1
    && e[0] == lo && e[b] == hi
    && forall i | 0 <= i < b :: e[i] < e[i + 1]
  }

  /** Every value lies in one of the b bins that the edges delimit, the last
      bin being closed. */
  predicate InBins(xs: seq<real>, e: seq<real>, b: nat)
    requires |e| == b + 1
  {
    forall x | x in xs :: exists k | 0 <= k < b :: e[k] <= x && (x < e[k + 1] || k == b - 1)
  }

  /** b equal-width bins over [lo, hi]: b + 1 rising edges from lo to hi,
      every value in its bin, each count the number of values in its bin,
      counts adding up to the number of values. */
  lemma BinsCorrect(xs: seq<real>, lo: real, hi: real, b: nat)
    requires lo < hi && b >= 1 && forall x | x in xs :: lo <= x <= hi
    ensures var e, counts := Edges(lo, hi, b), BinCounts(xs, lo, hi, b);
      && RisingEdges(e, lo, hi, b)
      && InBins(xs, e, b)
      && |counts| == b && SumNat(counts) == |xs|
      && forall k | 0 <= k < b :: counts[k] == |Filter(xs, InBin(e, b, k))|
  {
    EdgesAscending(lo, hi, b);
    BinCountsSum(xs, lo, hi, b);
    forall k | 0 <= k < b
      ensures BinCounts(xs, lo, hi, b)[k] == |Filter(xs, InBin(Edges(lo, hi, b), b, k))|
    {
      BinCountsExact(xs, lo, hi, b, k);
    }
    forall x | x in xs
      ensures exists k | 0 <= k < b :: Edges(lo, hi, b)[k] <= x && (x < Edges(lo, hi, b)[k + 1] || k == b - 1)
    {
      BinIndexCorrect(x, lo, hi, b);
    }
  }

  /** n values get min(ceil(log2 n) + 1, 50) bins and one more edge; the
      edges rise from the minimum to the maximum, widened by 0.5 on each side
      when they agree (see Range); each value lies in its bin; each count is
      the number of values in its bin; the counts add up to n. */
  lemma HistogramCorrect(name: string, xs: seq<real>, std: seq<real> -> real)
    requires xs != []
    ensures var h := HistogramOfValues(name, xs, std);
      var n, b, range := |xs|, |h.counts|, Range(MinOf(xs), MaxOf(xs));
      && h.column == name
      && b == Min(CeilLog2(n) + 1, 50)
      && RisingEdges(h.bins, range.0, range.1, b)
      && InBins(xs, h.bins, b)
      && (forall k | 0 <= k < b :: h.counts[k] == |Filter(xs, InBin(h.bins, b, k))|)
      && SumNat(h.counts) == n
  {
    var range := Range(MinOf(xs), MaxOf(xs));
    var b := BinCount(|xs|);
    assert b == Min(CeilLog2(|xs|) + 1, 50);
    BinsCorrect(xs, range.0, range.1, b);
    var h := HistogramOfValues(name, xs, std);
    assert h.bins == Edges(range.0, range.1, b) && h.counts == BinCounts(xs, range.0, range.1, b);
    assert |h.counts| == b;
  }

  /** HistogramOf as a value, for a given standard deviation. */
  function HistogramFn(std: seq<real> -> real): Column -> Option<HistogramData> {
    c => HistogramOf(c, std)
  }

  /** The histograms of the given columns, in column order, skipping those
      without values. */
  function Histograms(cols: seq<Column>, std: seq<real> -> real): seq<HistogramData> {
    Somes(cols, HistogramFn(std))
  }

  /** One histogram for each column with a value, in column order, and
      nothing else. */
  lemma HistogramsCover(cols: seq<Column>, std: seq<real> -> real)
    ensures var r, f := Histograms(cols, std), Filter(cols, HasNumbers());
      && |r| == |f| <= |cols|
      && (forall k | 0 <= k < |f| :: HistogramOf(f[k], std) == Some(r[k]))
      && (forall h | h in r :: exists c | c in cols :: HistogramOf(c, std) == Some(h))
      && (forall c | c in cols && Numbers(c.cells) != [] :: HistogramOf(c, std).value in r)
  {
    var g, p := HistogramFn(std), HasNumbers();
    forall c | c in cols ensures g(c).Some? == p(c) {
      assert g(c) == HistogramOf(c, std);
    }
    SomesInOrder(cols, g, p);
    var r, f := Histograms(cols, std), Filter(cols, p);
    forall k | 0 <= k < |f| ensures HistogramOf(f[k], std) == Some(r[k]) {
      assert g(f[k]) == HistogramOf(f[k], std);
    }
    forall h | h in r ensures exists c | c in cols :: HistogramOf(c, std) == Some(h) {
      var k :| 0 <= k < |r| && r[k] == h;
      assert f[k] in f;
    }
    forall c | c in cols && Numbers(c.cells) != [] ensures HistogramOf(c, std).value in r {
      var i :| 0 <= i < |cols| && cols[i] == c;
      assert p(cols[i]);
      var k :| 0 <= k < |f| && f[k] == c;
      assert r[k] in r;
    }
  }

  /** get_histogram_data(df, max_columns=10). */
  /** The histogram and summary statistics of one column's values, as the
      body of get_histogram_data's loop computes them. */
  method ColumnHistogram(name: string, series: seq<real>, std: seq<real> -> real)
    returns (h: HistogramData)
    requires series != []
    ensures h == HistogramOfValues(name, series, std)
  {
    var nBins := Min(CeilLog2(|series|) + 1, 50);
    var range := Range(MinOf(series), MaxOf(series));
    h := HistogramData(name, Edges(range.0, range.1, nBins),
      BinCounts(series, range.0, range.1, nBins), Mean(series), Median(series), std(series));
  }

  method GetHistogramData(t: Table, std: seq<real> -> real, maxColumns: nat := 10)
    returns (histograms: seq<HistogramData>)
    ensures histograms == Histograms(Take(NumberColumns(t.columns), maxColumns), std)
  {
    var numericalCols := Take(NumberColumns(t.columns), maxColumns);
    histograms := [];
    var j := 0;
    while j < |numericalCols|
      invariant 0 <= j <= |numericalCols|
      invariant histograms == Histograms(numericalCols[..j], std)
    {
      var col := numericalCols[j];
      SomesSnoc(numericalCols, j, HistogramFn(std));
      var series := Numbers(col.cells);
      if |series| == 0 {
        j := j + 1;
        continue;
      }
      var h := ColumnHistogram(col.name, series, std);
      histograms := histograms + [h];
      j := j + 1;
    }
    assert numericalCols[..j] == numericalCols;
  }

  /** Only numeric (not Boolean) columns among the first maxColumns of them
      get histograms, at most maxColumns in all. */
  lemma HistogramColumns(t: Table, std: seq<real> -> real, maxColumns: nat)
    ensures var cols := Take(NumberColumns(t.columns), maxColumns);
      var hs := Histograms(cols, std);
      && |hs| <= maxColumns
      && forall h | h in hs :: exists c | c in cols :: c in t.columns && c.kind == Numeric && h.column == c.name
  {
    var cols := Take(NumberColumns(t.columns), maxColumns);
    var hs := Histograms(cols, std);
    HistogramsCover(cols, std);
    forall h | h in hs ensures exists c | c in cols :: c in t.columns && c.kind == Numeric && h.column == c.name {
      var c :| c in cols && HistogramOf(c, std) == Some(h);
      assert c in NumberColumns(t.columns);
    }
  }
}
