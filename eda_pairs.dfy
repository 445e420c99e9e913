/**
  The column pairs (i, j) with i < j of a correlation matrix, visited row by
  row as the nested loops of get_correlation_matrix and get_scatter_plot_data
  visit them, keeping the pairs whose entry passes a test.
*/
module EdaPairs {
  import opened Wrappers

  /** A square matrix of correlations; None is NaN. */
  type Matrix = seq<seq<Option<real>>>

  predicate Square(m: Matrix) {
    forall i | 0 <= i < |m| :: |m[i]| == |m|
  }

  type Pair = (nat, nat)

  /** Row-major order of pairs. */
  predicate LexLess(p: Pair, q: Pair) {
    p.0 < q.0 || (p.0 == q.0 && p.1 < q.1)
  }

  predicate LexAscending(s: seq<Pair>) {
    forall a, b | 0 <= a < b < |s| :: LexLess(s[a], s[b])
  }

  /** The kept pairs (i, k) of row i with i < k < j, in column order. */
  function RowPairs(m: Matrix, keep: Option<real> -> bool, i: nat, j: nat): (r: seq<Pair>)
    requires Square(m) && i < |m| && j <= |m|
    decreases j
  {
    if j <= i + 1 then []
    else RowPairs(m, keep, i, j - 1) + (if keep(m[i][j - 1]) then [(i, j - 1)] else [])
  }

  /** The kept pairs of rows 0 .. i-1, row after row. */
  function Pairs(m: Matrix, keep: Option<real> -> bool, i: nat): (r: seq<Pair>)
    requires Square(m) && i <= |m|
  {
    if i == 0 then [] else Pairs(m, keep, i - 1) + RowPairs(m, keep, i - 1, |m|)
  }

  /** All kept pairs of the matrix. */
  function AllPairs(m: Matrix, keep: Option<real> -> bool): seq<Pair>
    requires Square(m)
  {
    Pairs(m, keep, |m|)
  }

  lemma {:induction false} RowPairsCorrect(m: Matrix, keep: Option<real> -> bool, i: nat, j: nat)
    requires Square(m) && i < |m| && j <= |m|
    ensures var r := RowPairs(m, keep, i, j);
      && (forall p :: p in r <==> p.0 == i && i < p.1 < j && keep(m[i][p.1]))
      && LexAscending(r)
    decreases j
  {
    if j > i + 1 {
      RowPairsCorrect(m, keep, i, j - 1);
      var r, r0 := RowPairs(m, keep, i, j), RowPairs(m, keep, i, j - 1);
      if keep(m[i][j - 1]) {
        forall a, b | 0 <= a < b < |r| ensures LexLess(r[a], r[b]) {
          if b < |r0| {
            assert r[a] == r0[a] && r[b] == r0[b];
          } else {
            assert r[a] in r0;
          }
        }
      }
    }
  }

  lemma AscendingAppend(a: seq<Pair>, b: seq<Pair>)
    requires LexAscending(a) && LexAscending(b)
    requires forall x, y | x in a && y in b :: LexLess(x, y)
    ensures LexAscending(a + b)
  {
    var r := a + b;
    forall i, j | 0 <= i < j < |r| ensures LexLess(r[i], r[j]) {
      if j < |a| {
        assert r[i] == a[i] && r[j] == a[j];
      } else if i >= |a| {
        assert r[i] == b[i - |a|] && r[j] == b[j - |a|];
      } else {
        assert r[i] == a[i] && r[j] == b[j - |a|];
      }
    }
  }

  /** The kept pairs of the first i rows are exactly the pairs i' < j with
      i' < i whose entry passes, each once, in row-major order. */
  lemma PairsCorrect(m: Matrix, keep: Option<real> -> bool, i: nat)
    requires Square(m) && i <= |m|
    ensures var r := Pairs(m, keep, i);
      && (forall p :: p in r <==> p.0 < i && p.0 < p.1 < |m| && keep(m[p.0][p.1]))
      && LexAscending(r)
  {
    PairsSound(m, keep, i);
    PairsComplete(m, keep, i);
    PairsAscending(m, keep, i);
  }

  lemma {:induction false} PairsSound(m: Matrix, keep: Option<real> -> bool, i: nat)
    requires Square(m) && i <= |m|
    ensures forall p | p in Pairs(m, keep, i) :: p.0 < i && p.0 < p.1 < |m| && keep(m[p.0][p.1])
  {
    if i > 0 {
      PairsSound(m, keep, i - 1);
      RowPairsCorrect(m, keep, i - 1, |m|);
    }
  }

  lemma {:induction false} PairsComplete(m: Matrix, keep: Option<real> -> bool, i: nat)
    requires Square(m) && i <= |m|
    ensures forall p: Pair | p.0 < i && p.0 < p.1 < |m| && keep(m[p.0][p.1]) :: p in Pairs(m, keep, i)
  {
    if i > 0 {
      var a, b := Pairs(m, keep, i - 1), RowPairs(m, keep, i - 1, |m|);
      PairsComplete(m, keep, i - 1);
      RowPairsCorrect(m, keep, i - 1, |m|);
      forall p: Pair | p.0 < i && p.0 < p.1 < |m| && keep(m[p.0][p.1]) ensures p in a + b {
        if p.0 < i - 1 {
          assert p in a;
        } else {
          assert p in b;
        }
      }
    }
  }

  lemma {:induction false} PairsAscending(m: Matrix, keep: Option<real> -> bool, i: nat)
    requires Square(m) && i <= |m|
    ensures LexAscending(Pairs(m, keep, i))
  {
    if i > 0 {
      var a, b := Pairs(m, keep, i - 1), RowPairs(m, keep, i - 1, |m|);
      PairsAscending(m, keep, i - 1);
      PairsSound(m, keep, i - 1);
      RowPairsCorrect(m, keep, i - 1, |m|);
      RowAfterRows(a, b, i - 1);
    }
  }

  /** The pairs of row r, after the ascending pairs of earlier rows, keep
      the sequence ascending. */
  lemma RowAfterRows(a: seq<Pair>, b: seq<Pair>, r: nat)
    requires LexAscending(a) && LexAscending(b)
    requires forall x | x in a :: x.0 < r
    requires forall y | y in b :: y.0 == r
    ensures LexAscending(a + b)
  {
    AscendingAppend(a, b);
  }

  /** Every pair i < j of the matrix whose entry passes is listed, once, in
      row-major order, and nothing else is. */
  lemma AllPairsCorrect(m: Matrix, keep: Option<real> -> bool)
    requires Square(m)
    ensures var r := AllPairs(m, keep);
      && (forall p :: p in r <==> p.0 < p.1 < |m| && keep(m[p.0][p.1]))
      && LexAscending(r)
  {
    PairsCorrect(m, keep, |m|);
  }

  /** Extending a row by one column. */
  lemma RowPairsStep(m: Matrix, keep: Option<real> -> bool, i: nat, j: nat)
    requires Square(m) && i < j < |m|
    ensures RowPairs(m, keep, i, j + 1) ==
      RowPairs(m, keep, i, j) + (if keep(m[i][j]) then [(i, j)] else [])
  {
  }

  /** A finished row before the next one. */
  lemma PairsStep(m: Matrix, keep: Option<real> -> bool, i: nat)
    requires Square(m) && i < |m|
    ensures Pairs(m, keep, i + 1) == Pairs(m, keep, i) + RowPairs(m, keep, i, |m|)
  {
  }

  /** The record built for each pair, in the pairs' order. */
  function MapPairs<T>(ps: seq<Pair>, f: Pair -> T): (r: seq<T>)
    ensures |r| == |ps| && forall k | 0 <= k < |ps| :: r[k] == f(ps[k])
  {
    seq(|ps|, k requires 0 <= k < |ps| => f(ps[k]))
  }

  lemma MapPairsSnoc<T>(ps: seq<Pair>, p: Pair, f: Pair -> T)
    ensures MapPairs(ps + [p], f) == MapPairs(ps, f) + [f(p)]
  {
    assert MapPairs(ps + [p], f)[|ps|] == f(p);
  }

  lemma MapPairsAppend<T>(a: seq<Pair>, b: seq<Pair>, f: Pair -> T)
    ensures MapPairs(a + b, f) == MapPairs(a, f) + MapPairs(b, f)
  {
  }

  /** The records of rows 0 .. i-1 followed by those of row i are the
      records of rows 0 .. i. */
  lemma MapPairsNextRow<T>(m: Matrix, keep: Option<real> -> bool, i: nat, x: seq<T>, y: seq<T>, f: Pair -> T)
    requires Square(m) && i < |m|
    requires x == MapPairs(Pairs(m, keep, i), f) && y == MapPairs(RowPairs(m, keep, i, |m|), f)
    ensures x + y == MapPairs(Pairs(m, keep, i + 1), f)
  {
    PairsStep(m, keep, i);
    MapPairsAppend(Pairs(m, keep, i), RowPairs(m, keep, i, |m|), f);
  }
}
