/** The discrete Fourier transform as a sum, the reference transforms of the
    test suite, and the algebra the fast transforms rest on: decimation in
    frequency, orthogonality of the roots of unity, inversion and the
    circular convolution theorem. */
module Dft {
  import opened Complex
  import opened Sums
  import opened Trig

  /** Coefficient k of z: the sum over n of z[n] * w^(sign * n * k), where w
      is the principal |z|-th root of unity. */
  function Spectrum(trig: Trig, z: seq<Complex>, sign: int, k: int): Complex {
    if |z| == 0 then Zero else Total(Terms(trig, z, sign, k))
  }

  /** The terms z[n] * w^(sign * n * k) of coefficient k. */
  function Terms(trig: Trig, z: seq<Complex>, sign: int, k: int): (t: seq<Complex>)
    requires |z| > 0
    ensures |t| == |z|
  {
    seq(|z|, n requires 0 <= n < |z| => Mul(z[n], Root(trig, |z|, sign * n * k)))
  }

  /** All |z| coefficients. */
  function Transform(trig: Trig, z: seq<Complex>, sign: int): (r: seq<Complex>)
    ensures |r| == |z|
  {
    seq(|z|, k requires 0 <= k < |z| => Spectrum(trig, z, sign, k))
  }

  /** The transform `fft(x, inverse)` computes: the forward transform uses
      the negative sign, the inverse the positive sign and a division of
      every coefficient by the length. */
  function Fourier(trig: Trig, z: seq<Complex>, inverse: bool): (r: seq<Complex>)
    ensures |r| == |z|
  {
    if inverse then seq(|z|, k requires 0 <= k < |z| => DivReal(Spectrum(trig, z, 1, k), |z| as real))
    else Transform(trig, z, -1)
  }

  /** The reference transform of the test suite (`dft` in lib/fft.test.ts):
      twiddles come from a table of the len-th roots indexed by
      (n * k) % len, and the inverse divides each coefficient by len. */
  function ReferenceDft(trig: Trig, x: seq<Complex>, inverse: bool): (r: seq<Complex>)
    ensures |r| == |x|
  {
    var len := |x|;
    var sign := if inverse then 1 else -1;
    seq(len, k requires 0 <= k < len =>
      var acc := Total(ReferenceTerms(trig, x, sign, k));
      if inverse then DivReal(acc, len as real) else acc)
  }

  /** The terms x[n] * table[(n * k) % len] of the reference's coefficient k. */
  function ReferenceTerms(trig: Trig, x: seq<Complex>, sign: int, k: int): (t: seq<Complex>)
    requires |x| > 0
    ensures |t| == |x|
  {
    var len := |x|;
    seq(len, n requires 0 <= n < len => Mul(x[n], Root(trig, len, sign * ((n * k) % len))))
  }

  /** The reference transform over a frequency range of the test suite
      (`dftRange`): coefficient k sits at frequency
      hzStart + hzStep * k with hzStep = (hzEnd - hzStart) / (len - 1). */
  function ReferenceRange(trig: Trig, x: seq<Complex>, hzStart: real, hzEnd: real, len: nat): (r: seq<Complex>)
    requires len >= 2 && |x| >= 1
    ensures |r| == len
  {
    var n0 := |x|;
    var hzStep := HzStep(hzStart, hzEnd, len);
    seq(len, k requires 0 <= k < len => Total(RangeTerms(trig, x, Frequency(hzStart, hzStep, k))))
  }

  /** The spacing (hzEnd - hzStart) / (len - 1) of len frequencies. */
  function HzStep(hzStart: real, hzEnd: real, len: nat): real
    requires len >= 2
  {
    (hzEnd - hzStart) / (len - 1) as real
  }

  /** Frequency k of the grid that starts at hzStart in steps of hzStep. */
  function Frequency(hzStart: real, hzStep: real, k: int): real {
    hzStart + hzStep * k as real
  }

  /** The angle, in turns, of sample n at frequency hz when the whole input
      of n0 samples spans one hertz: -2 pi hz n / n0 radians. */
  function RangeAngle(hz: real, n: int, n0: nat): real
    requires n0 > 0
  {
    -hz * n as real / n0 as real
  }

  /** The terms x[n] * e^(-2 pi i hz n / n0) of the frequency hz. */
  function RangeTerms(trig: Trig, x: seq<Complex>, hz: real): (t: seq<Complex>)
    requires |x| > 0
    ensures |t| == |x|
  {
    seq(|x|, n requires 0 <= n < |x| => Mul(x[n], Cis(trig, RangeAngle(hz, n, |x|))))
  }

  // Exponents only matter modulo the length.

  lemma RootShift(trig: Trig, n: nat, a: int, q: int)
    requires UnitCircle(trig) && n > 0
    ensures Root(trig, n, a + q * n) == Root(trig, n, a)
  {
    RootAdd(trig, n, a, q * n);
    RootMultiple(trig, n, q);
    MulOneRight(Root(trig, n, a));
  }

  lemma RootSignedMod(trig: Trig, n: nat, sign: int, m: int)
    requires UnitCircle(trig) && n > 0
    ensures Root(trig, n, sign * (m % n)) == Root(trig, n, sign * m)
  {
    var q := m / n;
    assert sign * m == sign * (m % n) + (sign * q) * n;
    RootShift(trig, n, sign * (m % n), sign * q);
  }

  /** The table-driven reference transform is the transform fft promises. */
  lemma ReferenceIsFourier(trig: Trig, x: seq<Complex>, inverse: bool)
    requires UnitCircle(trig)
    ensures ReferenceDft(trig, x, inverse) == Fourier(trig, x, inverse)
  {
    var sign := if inverse then 1 else -1;
    forall k | 0 <= k < |x|
      ensures Total(ReferenceTerms(trig, x, sign, k)) == Spectrum(trig, x, sign, k)
    {
      ReferenceTermsAre(trig, x, sign, k);
    }
  }

  /** Reducing the exponent modulo the length changes no term. */
  lemma ReferenceTermsAre(trig: Trig, x: seq<Complex>, sign: int, k: int)
    requires UnitCircle(trig) && |x| > 0
    ensures ReferenceTerms(trig, x, sign, k) == Terms(trig, x, sign, k)
  {
    var len := |x|;
    forall n | 0 <= n < len
      ensures ReferenceTerms(trig, x, sign, k)[n] == Terms(trig, x, sign, k)[n]
    {
      ReducedExponent(trig, len, sign, n, k);
    }
  }

  lemma ReducedExponent(trig: Trig, len: nat, sign: int, n: int, k: int)
    requires UnitCircle(trig) && len > 0
    ensures Root(trig, len, sign * ((n * k) % len)) == Root(trig, len, sign * n * k)
  {
    RootSignedMod(trig, len, sign, n * k);
    assert sign * (n * k) == sign * n * k;
  }

  // Decimation in frequency: a transform of length r * len2 splits into r
  // transforms of length len2.

  /** The k1-th decimated sequence: sample n2 collects the r samples
      z[len2 * n1 + n2], each turned by the twiddle w^(sign * n * k1). */
  function Decimated(trig: Trig, z: seq<Complex>, sign: int, r: nat, len2: nat, k1: int): (d: seq<Complex>)
    requires |z| == r * len2 && r > 0
    ensures |d| == len2
  {
    seq(len2, n2 requires 0 <= n2 < len2 =>
      Total(seq(r, n1 requires 0 <= n1 < r =>
        DecimatedTerm(trig, z, sign, r, len2, k1, n1, n2))))
  }

  lemma PositiveProduct(a: nat, b: nat)
    requires a > 0 && b > 0
    ensures a * b > 0
  {}

  lemma SplitIndex(r: nat, len2: nat, n1: nat, n2: nat)
    requires n1 < r && n2 < len2
    ensures Offset(len2, n1, n2) < r * len2
  {
    GridIndex(r, len2, n1, n2);
  }

  function DecimatedTerm(trig: Trig, z: seq<Complex>, sign: int, r: nat, len2: nat, k1: int, n1: nat, n2: nat): Complex
    requires |z| == r * len2 && r > 0
    requires n1 < r && n2 < len2
  {
    SplitIndex(r, len2, n1, n2);
    var n := Offset(len2, n1, n2);
    Mul(z[n], Root(trig, |z|, sign * n * k1))
  }

  lemma ExponentSplit(sign: int, n: int, r: int, k1: int, k2: int)
    ensures sign * n * (r * k2 + k1) == sign * n * k1 + r * (sign * n * k2)
  {}

  lemma ExponentShift(sign: int, len2: nat, n1: nat, n2: nat, k2: int)
    ensures sign * Offset(len2, n1, n2) * k2 == sign * n2 * k2 + (sign * n1 * k2) * len2
  {}

  /** The twiddle of term n = len2 * n1 + n2 of coefficient r * k2 + k1
      factors into the decimation twiddle and a len2-th root. */
  lemma TwiddleSplit(trig: Trig, len: nat, r: nat, len2: nat, sign: int, n1: nat, n2: nat, k1: int, k2: int)
    requires UnitCircle(trig) && len == r * len2 && len > 0 && len2 > 0
    ensures Root(trig, len, sign * Offset(len2, n1, n2) * (r * k2 + k1))
         == Mul(Root(trig, len, sign * Offset(len2, n1, n2) * k1), Root(trig, len2, sign * n2 * k2))
  {
    var n := Offset(len2, n1, n2);
    ExponentSplit(sign, n, r, k1, k2);
    ExponentShift(sign, len2, n1, n2, k2);
    RootSplit(trig, len, r, len2, sign * n * (r * k2 + k1), sign * n * k1, sign * n * k2, sign * n2 * k2, sign * n1 * k2);
  }

  /** With e = a + r b and b = c + q len2, the len-th root (len = r len2)
      to the e factors into the len-th root to the a and the len2-th root
      to the c. */
  lemma RootSplit(trig: Trig, len: nat, r: nat, len2: nat, e: int, a: int, b: int, c: int, q: int)
    requires UnitCircle(trig) && len == r * len2 && len > 0 && len2 > 0
    requires e == a + r * b && b == c + q * len2
    ensures Root(trig, len, e) == Mul(Root(trig, len, a), Root(trig, len2, c))
  {
    RootAdd(trig, len, a, r * b);
    RootScale(trig, r, len2, b);
    RootShift(trig, len2, c, q);
  }

  /** One term of coefficient r * k2 + k1, regrouped. */
  lemma DecimationTerm(trig: Trig, z: seq<Complex>, sign: int, r: nat, len2: nat, k1: int, k2: int, k: int, n1: nat, n2: nat)
    requires UnitCircle(trig)
    requires |z| == r * len2 && r > 0 && k == r * k2 + k1
    requires n1 < r && n2 < len2 && Offset(len2, n1, n2) < |z|
    ensures Mul(z[Offset(len2, n1, n2)], Root(trig, |z|, sign * Offset(len2, n1, n2) * k))
         == Mul(DecimatedTerm(trig, z, sign, r, len2, k1, n1, n2), Root(trig, len2, sign * n2 * k2))
  {
    var n := Offset(len2, n1, n2);
    TwiddleSplit(trig, |z|, r, len2, sign, n1, n2, k1, k2);
    MulAssoc(z[n], Root(trig, |z|, sign * n * k1), Root(trig, len2, sign * n2 * k2));
  }

  /** The terms of coefficient r * k2 + k1 whose index is n2 modulo len2,
      summed, give sample n2 of the decimated sequence turned by a len2-th
      root. */
  lemma DecimationColumn(trig: Trig, z: seq<Complex>, sign: int, r: nat, len2: nat, k1: int, k2: int, k: int, n2: nat)
    requires UnitCircle(trig)
    requires |z| == r * len2 && |z| > 0 && r > 0 && n2 < len2 && k == r * k2 + k1
    ensures ColumnTotals(Grid(Terms(trig, z, sign, k), r, len2), len2)[n2]
         == Terms(trig, Decimated(trig, z, sign, r, len2, k1), sign, k2)[n2]
  {
    var t := Terms(trig, z, sign, k);
    var g := Grid(t, r, len2);
    var w := Root(trig, len2, sign * n2 * k2);
    var terms := seq(r, n1 requires 0 <= n1 < r => DecimatedTerm(trig, z, sign, r, len2, k1, n1, n2));
    var col := Column(g, len2, n2);
    forall n1 | 0 <= n1 < r
      ensures col[n1] == MulRight(terms, w)[n1]
    {
      assert g[n1][n2] == t[Offset(len2, n1, n2)];
      DecimationTerm(trig, z, sign, r, len2, k1, k2, k, n1, n2);
    }
    assert col == MulRight(terms, w);
    TotalMulRight(terms, w);
    var d := Decimated(trig, z, sign, r, len2, k1);
    assert Terms(trig, d, sign, k2)[n2] == Mul(d[n2], w);
  }

  /** Coefficient k = r * k2 + k1 of z is coefficient k2 of the k1-th decimated
      sequence. */
  lemma Decimation(trig: Trig, z: seq<Complex>, sign: int, r: nat, len2: nat, k1: int, k2: int, k: int)
    requires UnitCircle(trig)
    requires |z| == r * len2 && r > 0 && len2 > 0 && k == r * k2 + k1
    ensures Spectrum(trig, z, sign, k) == Spectrum(trig, Decimated(trig, z, sign, r, len2, k1), sign, k2)
  {
    PositiveProduct(r, len2);
    var t := Terms(trig, z, sign, k);
    TotalBlocks(t, r, len2);
    var d := Decimated(trig, z, sign, r, len2, k1);
    var columns := ColumnTotals(Grid(t, r, len2), len2);
    forall n2 | 0 <= n2 < len2
      ensures columns[n2] == Terms(trig, d, sign, k2)[n2]
    {
      DecimationColumn(trig, z, sign, r, len2, k1, k2, k, n2);
    }
    assert columns == Terms(trig, d, sign, k2);
  }

  // Orthogonality and inversion.

  /** The L powers w^(k * d), k = 0 .. L - 1, of the L-th root w. */
  function RootPowers(trig: Trig, len: nat, d: int): (p: seq<Complex>)
    requires len > 0
    ensures |p| == len
  {
    seq(len, k requires 0 <= k < len => Root(trig, len, k * d))
  }

  lemma MultipleOfMultiple(k: int, d: int, len: nat)
    requires len > 0 && d % len == 0
    ensures (k * d) % len == 0
  {
    var q := d / len;
    assert d == q * len;
    assert k * d == (k * q) * len;
    MultipleMod(k * q, len);
  }

  /** Turning the powers by w moves the first one, w^0 = 1, to the end,
      where it reappears as w^L = 1. */
  lemma RootPowersRotate(trig: Trig, len: nat, d: int)
    requires UnitCircle(trig) && len > 0
    ensures RootPowers(trig, len, d) + [One] == [One] + MulRight(RootPowers(trig, len, d), Root(trig, len, d))
  {
    var p := RootPowers(trig, len, d);
    var q := MulRight(p, Root(trig, len, d));
    forall k | 0 <= k <= len
      ensures (p + [One])[k] == ([One] + q)[k]
    {
      RootPowersRotateAt(trig, len, d, k);
    }
  }

  lemma RootPowersRotateAt(trig: Trig, len: nat, d: int, k: nat)
    requires UnitCircle(trig) && len > 0 && k <= len
    ensures (RootPowers(trig, len, d) + [One])[k] == ([One] + MulRight(RootPowers(trig, len, d), Root(trig, len, d)))[k]
  {
    RootPowerEnds(trig, len, d);
    if k > 0 {
      RootPowerNext(trig, len, d, k - 1);
    }
  }

  lemma RootPowerNext(trig: Trig, len: nat, d: int, k: nat)
    requires UnitCircle(trig) && len > 0
    ensures Mul(Root(trig, len, k * d), Root(trig, len, d)) == Root(trig, len, (k + 1) * d)
  {
    RootAdd(trig, len, k * d, d);
    assert k * d + d == (k + 1) * d;
  }

  lemma RootPowerEnds(trig: Trig, len: nat, d: int)
    requires UnitCircle(trig) && len > 0
    ensures Root(trig, len, 0 * d) == One && Root(trig, len, len * d) == One
  {
    RootMultiple(trig, len, d);
    assert len * d == d * len;
    RootMultiple(trig, len, 0);
    assert 0 * d == 0 * len;
  }

  /** Shifting the powers by one multiplies their sum by w^d. */
  lemma {:induction false} RootPowersShift(trig: Trig, len: nat, d: int)
    requires UnitCircle(trig) && len > 0
    ensures Total(RootPowers(trig, len, d)) == Mul(Total(RootPowers(trig, len, d)), Root(trig, len, d))
  {
    var p := RootPowers(trig, len, d);
    var z := Root(trig, len, d);
    var q := MulRight(p, z);
    RootPowersRotate(trig, len, d);
    TotalAppend(p, [One]);
    TotalAppend([One], q);
    assert Total([One]) == Add(Zero, One);
    TotalMulRight(p, z);
    AddZero(One);
    AddComm(One, Mul(Total(p), z));
  }

  /** The powers of an L-th root sum to L when it is one and to zero
      otherwise. */
  lemma {:induction false} Orthogonality(trig: Trig, len: nat, d: int)
    requires UnitCircle(trig) && len > 0
    ensures Total(RootPowers(trig, len, d)) == if d % len == 0 then Complex(len as real, 0.0) else Zero
  {
    var p := RootPowers(trig, len, d);
    if d % len == 0 {
      forall k | 0 <= k < len
        ensures p[k] == One
      {
        MultipleOfMultiple(k, d, len);
        RootOne(trig, len, k * d);
      }
      TotalOnes(p);
    } else {
      var z := Root(trig, len, d);
      var s := Total(p);
      RootPowersShift(trig, len, d);
      RootOne(trig, len, d);
      MulSubRight(s, z, One);
      MulOneRight(s);
      assert Mul(s, Sub(z, One)) == Zero;
      MulComm(s, Sub(z, One));
      NoZeroDivisors(Sub(z, One), s);
    }
  }

  /** The inverse transform undoes the forward one: fft(fft(x, false), true)
      gives x back. */
  lemma {:induction false} Inversion(trig: Trig, c: seq<Complex>)
    requires UnitCircle(trig)
    ensures Fourier(trig, Fourier(trig, c, false), true) == c
  {
    var len := |c|;
    var x := Fourier(trig, c, false);
    forall j | 0 <= j < len
      ensures DivReal(Spectrum(trig, x, 1, j), len as real) == c[j]
    {
      InversionAt(trig, c, j);
      DivRealScale(c[j], len as real);
    }
  }

  /** Entry (k, n) is term n of coefficient k of the forward transform of
      c, turned by w^(k * j). */
  function Turned(trig: Trig, c: seq<Complex>, j: int): (m: seq<seq<Complex>>)
    requires |c| > 0
    ensures |m| == |c| && Rectangular(m, |c|)
  {
    var len := |c|;
    seq(len, k requires 0 <= k < len =>
      seq(len, n requires 0 <= n < len => Mul(c[n], Root(trig, len, k * (j - n)))))
  }

  lemma InversionEntry(trig: Trig, c: seq<Complex>, j: int, k: int, n: int)
    requires UnitCircle(trig) && 0 <= k < |c| && 0 <= n < |c|
    ensures MulRight(Terms(trig, c, -1, k), Root(trig, |c|, 1 * k * j))[n] == Turned(trig, c, j)[k][n]
  {
    var len := |c|;
    assert Terms(trig, c, -1, k)[n] == Mul(c[n], Root(trig, len, -1 * n * k));
    assert Turned(trig, c, j)[k][n] == Mul(c[n], Root(trig, len, k * (j - n)));
    InversionTerm(trig, len, c[n], j, k, n);
  }

  lemma InversionRow(trig: Trig, c: seq<Complex>, j: int, k: int)
    requires UnitCircle(trig) && 0 <= k < |c|
    ensures Mul(Transform(trig, c, -1)[k], Root(trig, |c|, 1 * k * j)) == Total(Turned(trig, c, j)[k])
  {
    var w := Root(trig, |c|, 1 * k * j);
    var terms := Terms(trig, c, -1, k);
    TotalMulRight(terms, w);
    forall n | 0 <= n < |c|
      ensures MulRight(terms, w)[n] == Turned(trig, c, j)[k][n]
    {
      InversionEntry(trig, c, j, k, n);
    }
    assert MulRight(terms, w) == Turned(trig, c, j)[k];
  }

  lemma InversionExponent(j: int, k: int, n: int)
    ensures -1 * n * k + 1 * k * j == k * (j - n)
  {}

  lemma InversionTerm(trig: Trig, len: nat, a: Complex, j: int, k: int, n: int)
    requires UnitCircle(trig) && len > 0
    ensures Mul(Mul(a, Root(trig, len, -1 * n * k)), Root(trig, len, 1 * k * j)) == Mul(a, Root(trig, len, k * (j - n)))
  {
    MulAssoc(a, Root(trig, len, -1 * n * k), Root(trig, len, 1 * k * j));
    RootAdd(trig, len, -1 * n * k, 1 * k * j);
    InversionExponent(j, k, n);
  }

  /** Column n of the turned terms is c[n] times a sum of root powers. */
  lemma TurnedColumn(trig: Trig, c: seq<Complex>, j: int, n: int)
    requires 0 <= n < |c|
    ensures ColumnTotals(Turned(trig, c, j), |c|)[n] == Mul(c[n], Total(RootPowers(trig, |c|, j - n)))
  {
    var len := |c|;
    var m := Turned(trig, c, j);
    var powers := RootPowers(trig, len, j - n);
    var col := Column(m, len, n);
    forall k | 0 <= k < len
      ensures col[k] == MulLeft(c[n], powers)[k]
    {
      assert m[k][n] == Mul(c[n], Root(trig, len, k * (j - n)));
      assert powers[k] == Root(trig, len, k * (j - n));
    }
    assert col == MulLeft(c[n], powers);
    TotalMulLeft(c[n], powers);
  }

  lemma InversionColumn(trig: Trig, c: seq<Complex>, j: int, n: int)
    requires UnitCircle(trig) && 0 <= j < |c| && 0 <= n < |c|
    ensures ColumnTotals(Turned(trig, c, j), |c|)[n] == if n == j then Scale(|c| as real, c[j]) else Zero
  {
    if n == j {
      InversionDiagonal(trig, c, j);
    } else {
      InversionOffDiagonal(trig, c, j, n);
    }
  }

  /** On the diagonal every root power is one, so the column sums to L c[j]. */
  lemma InversionDiagonal(trig: Trig, c: seq<Complex>, j: int)
    requires UnitCircle(trig) && 0 <= j < |c|
    ensures ColumnTotals(Turned(trig, c, j), |c|)[j] == Scale(|c| as real, c[j])
  {
    var len := |c|;
    TurnedColumn(trig, c, j, j);
    assert j - j == 0;
    Orthogonality(trig, len, 0);
    assert 0 % len == 0;
    MulReal(c[j], len as real);
  }

  /** Off the diagonal the root powers cancel. */
  lemma InversionOffDiagonal(trig: Trig, c: seq<Complex>, j: int, n: int)
    requires UnitCircle(trig) && 0 <= j < |c| && 0 <= n < |c| && n != j
    ensures ColumnTotals(Turned(trig, c, j), |c|)[n] == Zero
  {
    var len := |c|;
    TurnedColumn(trig, c, j, n);
    DistinctResidues(j, n, len);
    Orthogonality(trig, len, j - n);
    MulZeroRight(c[n]);
  }

  lemma {:induction false} InversionAt(trig: Trig, c: seq<Complex>, j: int)
    requires UnitCircle(trig) && 0 <= j < |c|
    ensures Spectrum(trig, Transform(trig, c, -1), 1, j) == Scale(|c| as real, c[j])
  {
    var len := |c|;
    var x := Transform(trig, c, -1);
    var m := Turned(trig, c, j);
    forall k | 0 <= k < len
      ensures Terms(trig, x, 1, j)[k] == RowTotals(m)[k]
    {
      InversionRow(trig, c, j, k);
    }
    assert Terms(trig, x, 1, j) == RowTotals(m);
    TotalSwap(m, len);
    var cols := ColumnTotals(m, len);
    forall n | 0 <= n < len
      ensures cols[n] == (if n == j then Scale(len as real, c[j]) else Zero)
    {
      InversionColumn(trig, c, j, n);
    }
    assert ZeroExcept(cols, j);
    TotalSingle(cols, j);
  }

  lemma DistinctResidues(j: int, n: int, len: nat)
    requires 0 <= j < len && 0 <= n < len && j != n
    ensures (j - n) % len != 0
  {
    if j > n {
      assert (j - n) % len == j - n;
    } else {
      assert j - n == -1 * len + (j - n + len);
    }
  }
}
