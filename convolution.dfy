/** Circular convolution, the convolution theorem, and the zero-padded,
    mirrored convolution that both Bluestein transforms evaluate through
    three power-of-two FFTs. */
module Convolution {
  import opened Complex
  import opened Sums
  import opened Trig
  import opened Dft

  /** The circular convolution of two sequences of the same length L:
      sample k is the sum over m of a[m] * b[(k - m) mod L]. */
  function Circular(a: seq<Complex>, b: seq<Complex>): (c: seq<Complex>)
    requires |a| == |b|
    ensures |c| == |a|
  {
    var len := |a|;
    seq(len, k requires 0 <= k < len => Total(CircularTerms(a, b, k)))
  }

  function CircularTerms(a: seq<Complex>, b: seq<Complex>, k: int): (t: seq<Complex>)
    requires |a| == |b| && 0 <= k < |a|
    ensures |t| == |a|
  {
    var len := |a|;
    seq(len, m requires 0 <= m < len => Mul(a[m], b[Wrap(k - m, len)]))
  }

  /** The pointwise product of two spectra (the `y_fft` loop). */
  function Pointwise(p: seq<Complex>, q: seq<Complex>): (r: seq<Complex>)
    requires |p| == |q|
    ensures |r| == |p|
    ensures forall k :: 0 <= k < |r| ==> r[k] == Mul(p[k], q[k])
  {
    seq(|p|, k requires 0 <= k < |p| => Mul(p[k], q[k]))
  }

  lemma ExponentSum(sign: int, m: int, j: int, k: int)
    ensures sign * m * k + sign * j * k == sign * (m + j) * k
  {}

  lemma ExponentWrap(sign: int, n: int, k: int, len: int)
    ensures sign * (n + len) * k == sign * n * k + (sign * k) * len
  {}

  /** Twiddles of the two factors multiply to the twiddle of their
      circular sum. */
  lemma TwiddleProduct(trig: Trig, len: nat, sign: int, m: int, n: int, k: int)
    requires UnitCircle(trig) && 0 <= m < len && 0 <= n < len
    ensures Mul(Root(trig, len, sign * m * k), Root(trig, len, sign * Wrap(n - m, len) * k))
         == Root(trig, len, sign * n * k)
  {
    var j := Wrap(n - m, len);
    RootAdd(trig, len, sign * m * k, sign * j * k);
    ExponentSum(sign, m, j, k);
    if n < m {
      assert m + j == n + len;
      ExponentWrap(sign, n, k, len);
      RootShift(trig, len, sign * n * k, sign * k);
    } else {
      assert m + j == n;
    }
  }

  /** Row n holds the terms of convolution sample n, turned by the twiddle
      of coefficient k: the double sum behind the convolution theorem. */
  function ConvolutionGrid(trig: Trig, a: seq<Complex>, b: seq<Complex>, sign: int, k: int): (g: seq<seq<Complex>>)
    requires |a| == |b| && |a| > 0
    ensures |g| == |a| && Rectangular(g, |a|)
  {
    var len := |a|;
    seq(len, n requires 0 <= n < len => MulRight(CircularTerms(a, b, n), Root(trig, len, sign * n * k)))
  }

  lemma ConvolutionRow(trig: Trig, a: seq<Complex>, b: seq<Complex>, sign: int, k: int, n: int)
    requires |a| == |b| && 0 <= n < |a|
    ensures Terms(trig, Circular(a, b), sign, k)[n] == Total(ConvolutionGrid(trig, a, b, sign, k)[n])
  {
    TotalMulRight(CircularTerms(a, b, n), Root(trig, |a|, sign * n * k));
  }

  lemma ConvolutionEntry(trig: Trig, a: Complex, b: Complex, len: nat, sign: int, m: int, n: int, k: int)
    requires UnitCircle(trig) && 0 <= m < len && 0 <= n < len
    ensures Mul(Mul(a, b), Root(trig, len, sign * n * k))
         == Mul(Mul(a, Root(trig, len, sign * m * k)), Mul(b, Root(trig, len, sign * Wrap(n - m, len) * k)))
  {
    TwiddleProduct(trig, len, sign, m, n, k);
    MulInterchange(a, b, Root(trig, len, sign * m * k), Root(trig, len, sign * Wrap(n - m, len) * k));
  }

  lemma GridEntry(trig: Trig, a: seq<Complex>, b: seq<Complex>, sign: int, k: int, m: int, n: int)
    requires UnitCircle(trig) && |a| == |b| && 0 <= m < |a| && 0 <= n < |a|
    ensures Column(ConvolutionGrid(trig, a, b, sign, k), |a|, m)[n]
         == MulLeft(Terms(trig, a, sign, k)[m], Rotated(Terms(trig, b, sign, k), m))[n]
  {
    var len := |a|;
    var j := Wrap(n - m, len);
    assert Column(ConvolutionGrid(trig, a, b, sign, k), |a|, m)[n]
        == Mul(Mul(a[m], b[j]), Root(trig, len, sign * n * k));
    assert Terms(trig, a, sign, k)[m] == Mul(a[m], Root(trig, len, sign * m * k));
    assert Terms(trig, b, sign, k)[j] == Mul(b[j], Root(trig, len, sign * j * k));
    ConvolutionEntry(trig, a[m], b[j], len, sign, m, n, k);
  }

  lemma ConvolutionColumn(trig: Trig, a: seq<Complex>, b: seq<Complex>, sign: int, k: int, m: int)
    requires UnitCircle(trig) && |a| == |b| && 0 <= m < |a|
    ensures ColumnTotals(ConvolutionGrid(trig, a, b, sign, k), |a|)[m]
         == MulRight(Terms(trig, a, sign, k), Spectrum(trig, b, sign, k))[m]
  {
    var u := Terms(trig, b, sign, k);
    var am := Terms(trig, a, sign, k)[m];
    var col := Column(ConvolutionGrid(trig, a, b, sign, k), |a|, m);
    forall n | 0 <= n < |a|
      ensures col[n] == MulLeft(am, Rotated(u, m))[n]
    {
      GridEntry(trig, a, b, sign, k, m, n);
    }
    assert col == MulLeft(am, Rotated(u, m));
    TotalMulLeft(am, Rotated(u, m));
    TotalRotate(u, m);
  }

  lemma ConvolutionRows(trig: Trig, a: seq<Complex>, b: seq<Complex>, sign: int, k: int)
    requires |a| == |b| && |a| > 0
    ensures Terms(trig, Circular(a, b), sign, k) == RowTotals(ConvolutionGrid(trig, a, b, sign, k))
  {
    forall n | 0 <= n < |a|
      ensures Terms(trig, Circular(a, b), sign, k)[n] == RowTotals(ConvolutionGrid(trig, a, b, sign, k))[n]
    {
      ConvolutionRow(trig, a, b, sign, k, n);
    }
  }

  lemma ConvolutionColumns(trig: Trig, a: seq<Complex>, b: seq<Complex>, sign: int, k: int)
    requires UnitCircle(trig) && |a| == |b| && |a| > 0
    ensures ColumnTotals(ConvolutionGrid(trig, a, b, sign, k), |a|)
         == MulRight(Terms(trig, a, sign, k), Spectrum(trig, b, sign, k))
  {
    forall m | 0 <= m < |a|
      ensures ColumnTotals(ConvolutionGrid(trig, a, b, sign, k), |a|)[m]
           == MulRight(Terms(trig, a, sign, k), Spectrum(trig, b, sign, k))[m]
    {
      ConvolutionColumn(trig, a, b, sign, k, m);
    }
  }

  /** The spectrum of a circular convolution is the product of the spectra. */
  lemma ConvolutionSpectrum(trig: Trig, a: seq<Complex>, b: seq<Complex>, sign: int, k: int)
    requires UnitCircle(trig) && |a| == |b|
    ensures Spectrum(trig, Circular(a, b), sign, k) == Mul(Spectrum(trig, a, sign, k), Spectrum(trig, b, sign, k))
  {
    if |a| == 0 {
      MulZeroRight(Zero);
    } else {
      var g := ConvolutionGrid(trig, a, b, sign, k);
      ConvolutionRows(trig, a, b, sign, k);
      TotalSwap(g, |a|);
      ConvolutionColumns(trig, a, b, sign, k);
      var ta := Terms(trig, a, sign, k);
      TotalMulRight(ta, Spectrum(trig, b, sign, k));
    }
  }

  /** What the three FFTs of a Bluestein transform compute:
      fft(fft(a) * fft(b), inverse) is the circular convolution of a and b. */
  lemma ConvolutionTheorem(trig: Trig, a: seq<Complex>, b: seq<Complex>)
    requires UnitCircle(trig) && |a| == |b|
    ensures Fourier(trig, Pointwise(Fourier(trig, a, false), Fourier(trig, b, false)), true) == Circular(a, b)
  {
    var c := Circular(a, b);
    var p := Pointwise(Fourier(trig, a, false), Fourier(trig, b, false));
    forall k | 0 <= k < |a|
      ensures p[k] == Fourier(trig, c, false)[k]
    {
      ConvolutionSpectrum(trig, a, b, -1, k);
    }
    assert p == Fourier(trig, c, false);
    Inversion(trig, c);
  }

  // Zero padding and the mirrored filter.

  /** The distance |k - m| between two indices. */
  function Dist(k: int, m: int): nat {
    if k >= m then k - m else m - k
  }

  /** a is zero from index p on. */
  predicate SupportedBelow(a: seq<Complex>, p: nat) {
    forall m :: p <= m < |a| ==> a[m] == Zero
  }

  /** b holds g[d] at d for d < q (the head written first) and at L - d for
      1 <= d < p (the mirrored tail). */
  predicate Mirrors(b: seq<Complex>, g: seq<Complex>, p: nat, q: nat) {
    && q <= |b| && p <= |b| && q <= |g| && p <= |g|
    && (forall d :: 0 <= d < q ==> b[d] == g[d])
    && (forall d :: 1 <= d < p ==> b[|b| - d] == g[d])
  }

  /** The correlation the padded convolution stands for: the sum over
      m < p of a[m] * g[|k - m|]. */
  function Correlation(a: seq<Complex>, g: seq<Complex>, p: nat, k: int): Complex
    requires p <= |a| && 0 <= k
    requires forall m :: 0 <= m < p ==> Dist(k, m) < |g|
  {
    Total(CorrelationTerms(a, g, p, k))
  }

  function CorrelationTerms(a: seq<Complex>, g: seq<Complex>, p: nat, k: int): (t: seq<Complex>)
    requires p <= |a| && 0 <= k
    requires forall m :: 0 <= m < p ==> Dist(k, m) < |g|
    ensures |t| == p
  {
    seq(p, m requires 0 <= m < p => Mul(a[m], g[Dist(k, m)]))
  }

  lemma MirrorIndex(k: int, m: int, len: nat, p: nat, q: nat)
    requires 0 <= k < q && 0 <= m < p && len >= p + q - 1 && len > 0
    ensures (k >= m ==> Wrap(k - m, len) == Dist(k, m) && Dist(k, m) < q)
    ensures (k < m ==> Wrap(k - m, len) == len - Dist(k, m) && 1 <= Dist(k, m) < p)
  {
  }

  lemma TotalZeros(s: seq<Complex>)
    requires forall i :: 0 <= i < |s| ==> s[i] == Zero
    ensures Total(s) == Zero
  {
    assert ZeroExcept(s, -1);
    TotalSingle(s, -1);
  }

  /** The terms of the circular convolution beyond the support of a vanish. */
  lemma PaddingTerms(a: seq<Complex>, b: seq<Complex>, p: nat, k: int)
    requires |a| == |b| && 0 <= k < |a| && p <= |a|
    requires SupportedBelow(a, p)
    ensures Total(CircularTerms(a, b, k)[p..]) == Zero
  {
    var tail := CircularTerms(a, b, k)[p..];
    forall i | 0 <= i < |tail|
      ensures tail[i] == Zero
    {
      MulZeroRight(b[Wrap(k - (p + i), |a|)]);
    }
    TotalZeros(tail);
  }

  /** Within the support, term m of sample k reads g at distance |k - m|. */
  lemma MirroredTerms(a: seq<Complex>, b: seq<Complex>, g: seq<Complex>, p: nat, q: nat, k: int)
    requires |a| == |b| && |a| >= p + q - 1 && |a| > 0 && p <= |a|
    requires Mirrors(b, g, p, q)
    requires 0 <= k < q
    ensures forall m :: 0 <= m < p ==> Dist(k, m) < |g|
    ensures CircularTerms(a, b, k)[..p] == CorrelationTerms(a, g, p, k)
  {
    var len := |a|;
    forall m | 0 <= m < p
      ensures Dist(k, m) < |g|
      ensures CircularTerms(a, b, k)[m] == Mul(a[m], g[Dist(k, m)])
    {
      MirrorIndex(k, m, len, p, q);
    }
  }

  /** Padding a below p and mirroring the filter g into b makes the
      circular convolution of length L >= p + q - 1 agree, on its first q
      samples, with the correlation of a and g: the wrapped-around part of
      the convolution lands in the tail of b, and the head and tail never
      meet. */
  lemma MirroredConvolution(a: seq<Complex>, b: seq<Complex>, g: seq<Complex>, p: nat, q: nat, k: int)
    requires |a| == |b| && |a| >= p + q - 1 && |a| > 0 && p <= |a|
    requires SupportedBelow(a, p) && Mirrors(b, g, p, q)
    requires 0 <= k < q
    ensures forall m :: 0 <= m < p ==> Dist(k, m) < |g|
    ensures Circular(a, b)[k] == Correlation(a, g, p, k)
  {
    var t := CircularTerms(a, b, k);
    assert t == t[..p] + t[p..];
    TotalAppend(t[..p], t[p..]);
    PaddingTerms(a, b, p, k);
    MirroredTerms(a, b, g, p, q, k);
    AddZero(Total(t[..p]));
  }
}
