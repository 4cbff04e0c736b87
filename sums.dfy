/** Finite sums of complex numbers.  `Total` adds the terms from the first
    to the last, the order in which the transforms accumulate them. */
module Sums {
  import opened Complex

  function Total(s: seq<Complex>): Complex
    decreases |s|
  {
    if |s| == 0 then Zero else Add(Total(s[..|s| - 1]), s[|s| - 1])
  }

  /** A matrix given as a sequence of rows, each of length `cols`. */
  predicate Rectangular(m: seq<seq<Complex>>, cols: nat) {
    forall i :: 0 <= i < |m| ==> |m[i]| == cols
  }

  /** The row totals of a matrix. */
  function RowTotals(m: seq<seq<Complex>>): (r: seq<Complex>)
    ensures |r| == |m|
  {
    seq(|m|, i requires 0 <= i < |m| => Total(m[i]))
  }

  /** Column j of a matrix whose rows have length `cols`. */
  function Column(m: seq<seq<Complex>>, cols: nat, j: int): (c: seq<Complex>)
    requires Rectangular(m, cols) && 0 <= j < cols
    ensures |c| == |m|
  {
    seq(|m|, i requires 0 <= i < |m| => m[i][j])
  }

  /** The column totals of a matrix whose rows have length `cols`. */
  function ColumnTotals(m: seq<seq<Complex>>, cols: nat): (r: seq<Complex>)
    requires Rectangular(m, cols)
    ensures |r| == cols
  {
    seq(cols, j requires 0 <= j < cols => Total(Column(m, cols, j)))
  }

  /** Every term multiplied on the right by c. */
  function MulRight(s: seq<Complex>, c: Complex): (r: seq<Complex>)
    ensures |r| == |s|
  {
    seq(|s|, i requires 0 <= i < |s| => Mul(s[i], c))
  }

  /** Every term multiplied on the left by c. */
  function MulLeft(c: Complex, s: seq<Complex>): (r: seq<Complex>)
    ensures |r| == |s|
  {
    seq(|s|, i requires 0 <= i < |s| => Mul(c, s[i]))
  }

  /** Every term multiplied by the real k. */
  function Scaled(k: real, s: seq<Complex>): (r: seq<Complex>)
    ensures |r| == |s|
  {
    seq(|s|, i requires 0 <= i < |s| => Scale(k, s[i]))
  }

  lemma {:induction false} TotalAppend(s: seq<Complex>, t: seq<Complex>)
    ensures Total(s + t) == Add(Total(s), Total(t))
    decreases |t|
  {
    if |t| == 0 {
      assert s + t == s;
    } else {
      var t' := t[..|t| - 1];
      assert (s + t)[..|s + t| - 1] == s + t';
      TotalAppend(s, t');
    }
  }

  /** The sum of a pointwise sum is the sum of the sums. */
  lemma {:induction false} TotalAdd(s: seq<Complex>, t: seq<Complex>)
    requires |s| == |t|
    ensures Total(seq(|s|, i requires 0 <= i < |s| => Add(s[i], t[i]))) == Add(Total(s), Total(t))
    decreases |s|
  {
    var u := seq(|s|, i requires 0 <= i < |s| => Add(s[i], t[i]));
    if |s| > 0 {
      var n := |s| - 1;
      assert u[..n] == seq(n, i requires 0 <= i < n => Add(s[..n][i], t[..n][i]));
      TotalAdd(s[..n], t[..n]);
    }
  }

  /** A common right factor comes out of a sum. */
  lemma {:induction false} TotalMulRight(s: seq<Complex>, c: Complex)
    ensures Total(MulRight(s, c)) == Mul(Total(s), c)
    decreases |s|
  {
    var u := MulRight(s, c);
    if |s| == 0 {
      MulZeroRight(c);
    } else {
      var n := |s| - 1;
      assert u[..n] == MulRight(s[..n], c);
      TotalMulRight(s[..n], c);
      MulAddLeft(Total(s[..n]), s[n], c);
    }
  }

  /** A common left factor comes out of a sum. */
  lemma TotalMulLeft(c: Complex, s: seq<Complex>)
    ensures Total(MulLeft(c, s)) == Mul(c, Total(s))
  {
    forall i | 0 <= i < |s|
      ensures Mul(c, s[i]) == Mul(s[i], c)
    {
      MulComm(c, s[i]);
    }
    assert MulLeft(c, s) == MulRight(s, c);
    TotalMulRight(s, c);
    MulComm(Total(s), c);
  }

  /** A common real factor comes out of a sum. */
  lemma {:induction false} TotalScale(k: real, s: seq<Complex>)
    ensures Total(Scaled(k, s)) == Scale(k, Total(s))
    decreases |s|
  {
    var u := Scaled(k, s);
    if |s| > 0 {
      var n := |s| - 1;
      assert u[..n] == Scaled(k, s[..n]);
      TotalScale(k, s[..n]);
    }
  }

  /** Every term of `s` other than the one at `j` is zero. */
  predicate ZeroExcept(s: seq<Complex>, j: int) {
    forall i :: 0 <= i < |s| && i != j ==> s[i] == Zero
  }

  /** The term at `j`, or zero when `j` is not an index of `s`. */
  function TermAt(s: seq<Complex>, j: int): Complex {
    if 0 <= j < |s| then s[j] else Zero
  }

  /** A sum whose terms all vanish except possibly the one at `j`. */
  lemma {:induction false} TotalSingle(s: seq<Complex>, j: int)
    requires ZeroExcept(s, j)
    ensures Total(s) == TermAt(s, j)
    decreases |s|
  {
    if |s| > 0 {
      var n := |s| - 1;
      var s' := s[..n];
      assert Total(s) == Add(Total(s'), s[n]);
      assert ZeroExcept(s', j);
      TotalSingle(s', j);
      if j == n {
        assert TermAt(s', j) == Zero;
        AddZero(s[n]);
      } else {
        assert s[n] == Zero;
        assert TermAt(s', j) == TermAt(s, j);
        AddZero(Total(s'));
      }
    }
  }

  /** A sum of ones counts its terms. */
  lemma {:induction false} TotalOnes(s: seq<Complex>)
    requires forall i :: 0 <= i < |s| ==> s[i] == One
    ensures Total(s) == Complex(|s| as real, 0.0)
    decreases |s|
  {
    if |s| > 0 {
      TotalOnes(s[..|s| - 1]);
    }
  }

  /** Summing by rows or by columns gives the same total. */
  lemma {:induction false} TotalSwap(m: seq<seq<Complex>>, cols: nat)
    requires Rectangular(m, cols)
    ensures Total(RowTotals(m)) == Total(ColumnTotals(m, cols))
    decreases |m|
  {
    if |m| == 0 {
      TotalSingle(ColumnTotals(m, cols), -1);
    } else {
      var n := |m| - 1;
      var m' := m[..n];
      TotalSwap(m', cols);
      assert RowTotals(m)[..n] == RowTotals(m');
      var c := ColumnTotals(m, cols);
      var c' := ColumnTotals(m', cols);
      forall j | 0 <= j < cols
        ensures c[j] == Add(c'[j], m[n][j])
      {
        assert Column(m, cols, j)[..n] == Column(m', cols, j);
      }
      assert c == seq(cols, j requires 0 <= j < cols => Add(c'[j], m[n][j]));
      TotalAdd(c', m[n]);
    }
  }

  /** The position of entry (n1, n2) when rows of `cols` terms are laid out
      one after another. */
  function Offset(cols: nat, n1: nat, n2: nat): nat {
    cols * n1 + n2
  }

  lemma GridIndex(rows: nat, cols: nat, n1: nat, n2: nat)
    requires n1 < rows && n2 < cols
    ensures Offset(cols, n1, n2) < rows * cols
  {
    assert cols * n1 + n2 < cols * n1 + cols == cols * (n1 + 1) <= cols * rows;
  }

  lemma GridIndices(rows: nat, cols: nat)
    ensures forall n1: nat, n2: nat :: n1 < rows && n2 < cols ==> Offset(cols, n1, n2) < rows * cols
  {
    forall n1: nat, n2: nat | n1 < rows && n2 < cols
      ensures Offset(cols, n1, n2) < rows * cols
    {
      GridIndex(rows, cols, n1, n2);
    }
  }

  /** The terms of `s` laid out as `rows` consecutive rows of `cols` terms. */
  function Grid(s: seq<Complex>, rows: nat, cols: nat): (m: seq<seq<Complex>>)
    requires |s| == rows * cols
    ensures |m| == rows && Rectangular(m, cols)
    ensures forall n1: nat, n2: nat :: n1 < rows && n2 < cols ==>
              Offset(cols, n1, n2) < |s| && m[n1][n2] == s[Offset(cols, n1, n2)]
  {
    GridIndices(rows, cols);
    seq(rows, n1 requires 0 <= n1 < rows =>
      seq(cols, n2 requires 0 <= n2 < cols => s[Offset(cols, n1, n2)]))
  }

  /** Splitting a sum of `rows * cols` terms into its rows. */
  lemma {:induction false} TotalRows(s: seq<Complex>, rows: nat, cols: nat)
    requires |s| == rows * cols
    ensures Total(s) == Total(RowTotals(Grid(s, rows, cols)))
    decreases rows
  {
    var m := Grid(s, rows, cols);
    if rows == 0 {
      assert s == [];
      assert RowTotals(m) == [];
    } else {
      var r := rows - 1;
      GridLastRow(s, r, cols);
      var head := s[..cols * r];
      var tail := s[cols * r..];
      TotalAppend(head, tail);
      TotalRows(head, r, cols);
      RowTotalsLast(m);
    }
  }

  /** The grid of rows + 1 rows is the grid of its first rows followed by
      the last row. */
  lemma GridLastRow(s: seq<Complex>, r: nat, cols: nat)
    requires |s| == (r + 1) * cols
    ensures cols * r <= |s| && s == s[..cols * r] + s[cols * r..]
    ensures |s[..cols * r]| == r * cols
    ensures Grid(s, r + 1, cols)[..r] == Grid(s[..cols * r], r, cols)
    ensures Grid(s, r + 1, cols)[r] == s[cols * r..]
  {
    assert cols * r + cols == |s|;
    var m, m' := Grid(s, r + 1, cols), Grid(s[..cols * r], r, cols);
    forall n1 | 0 <= n1 < r
      ensures m[n1] == m'[n1]
    {
      forall n2 | 0 <= n2 < cols
        ensures m[n1][n2] == m'[n1][n2]
      {
        GridIndex(r, cols, n1, n2);
      }
    }
    assert m[..r] == m';
    forall n2 | 0 <= n2 < cols
      ensures m[r][n2] == s[cols * r..][n2]
    {
      GridIndex(r + 1, cols, r, n2);
    }
  }

  lemma RowTotalsLast(m: seq<seq<Complex>>)
    requires |m| > 0
    ensures Total(RowTotals(m)) == Add(Total(RowTotals(m[..|m| - 1])), Total(m[|m| - 1]))
  {
    assert RowTotals(m)[..|m| - 1] == RowTotals(m[..|m| - 1]);
  }

  /** A sum over `n = cols * n1 + n2`, regrouped with `n2` outermost. */
  lemma TotalBlocks(s: seq<Complex>, rows: nat, cols: nat)
    requires |s| == rows * cols
    ensures Total(s) == Total(ColumnTotals(Grid(s, rows, cols), cols))
  {
    TotalRows(s, rows, cols);
    TotalSwap(Grid(s, rows, cols), cols);
  }

  /** i, which lies in [-len, len), reduced modulo len. */
  function Wrap(i: int, len: nat): (r: nat)
    requires 0 <= i + len && i < len
    ensures r < len
  {
    if i < 0 then i + len else i
  }

  /** s read cyclically from offset m: term n is s[(n - m) mod |s|]. */
  function Rotated(s: seq<Complex>, m: int): (r: seq<Complex>)
    requires 0 <= m < |s|
    ensures |r| == |s|
  {
    seq(|s|, n requires 0 <= n < |s| => s[Wrap(n - m, |s|)])
  }

  /** Summing a sequence read cyclically from offset m gives the same total. */
  lemma TotalRotate(s: seq<Complex>, m: int)
    requires 0 <= m < |s|
    ensures Total(Rotated(s, m)) == Total(s)
  {
    var len := |s|;
    var rotated := Rotated(s, m);
    var head := s[len - m..];
    var tail := s[..len - m];
    forall n | 0 <= n < len
      ensures rotated[n] == (head + tail)[n]
    {
      if n < m {
        assert Wrap(n - m, len) == n - m + len;
        assert rotated[n] == s[n - m + len] == head[n];
      } else {
        assert Wrap(n - m, len) == n - m;
        assert rotated[n] == s[n - m] == tail[n - m];
      }
    }
    assert rotated == head + tail;
    TotalAppend(head, tail);
    TotalAppend(tail, head);
    assert tail + head == s;
    AddComm(Total(head), Total(tail));
  }
}
