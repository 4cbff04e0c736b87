/** The chirp identities behind Bluestein's algorithm: a transform of any
    length, and a transform evaluated on an arbitrary grid of frequencies,
    written as a zero-padded circular convolution of power-of-two length. */
module Bluestein {
  import opened Complex
  import opened Sums
  import opened Trig
  import opened Dft
  import opened Convolution

  // The transform of length len (the `len2 == 1` branch of fft).

  /** The chirp table `w2`: entry n is e^(sign * pi * i * n^2 / len), the
      2 len-th root of unity raised to sign * n^2. */
  function Chirp(trig: Trig, sign: int, len: nat): (c: seq<Complex>)
    requires len > 0
    ensures |c| == len
  {
    seq(len, n requires 0 <= n < len => Root(trig, 2 * len, sign * n * n))
  }

  /** The conjugated chirp, the filter that b holds. */
  function ConjChirp(trig: Trig, sign: int, len: nat): (g: seq<Complex>)
    requires len > 0
    ensures |g| == len
  {
    seq(len, n requires 0 <= n < len => Conj(Chirp(trig, sign, len)[n]))
  }

  /** The array `a`: the input turned by the chirp, padded with zeros to
      `size` samples. */
  function ChirpedInput(trig: Trig, z: seq<Complex>, sign: int, size: nat): (a: seq<Complex>)
    requires 0 < |z| <= size
    ensures |a| == size
  {
    seq(size, n requires 0 <= n < size =>
      if n < |z| then Mul(z[n], Chirp(trig, sign, |z|)[n]) else Zero)
  }

  /** The array `b`: the conjugated chirp at 0 .. len - 1 and mirrored at
      size - 1 down to size - len + 1, zero elsewhere; the mirrored writes
      come second and win where the two would meet. */
  function ChirpFilter(trig: Trig, sign: int, len: nat, size: nat): (b: seq<Complex>)
    requires 0 < len <= size
    ensures |b| == size
  {
    var g := ConjChirp(trig, sign, len);
    seq(size, i requires 0 <= i < size =>
      if size - i < len then g[size - i] else if i < len then g[i] else Zero)
  }

  lemma ChirpedInputSupport(trig: Trig, z: seq<Complex>, sign: int, size: nat)
    requires 0 < |z| <= size
    ensures SupportedBelow(ChirpedInput(trig, z, sign, size), |z|)
  {}

  /** With size >= 2 len - 1 the head and the mirrored tail of b are
      disjoint, so b mirrors the conjugated chirp. */
  lemma ChirpFilterMirrors(trig: Trig, sign: int, len: nat, size: nat)
    requires 0 < len && size >= 2 * len - 1
    ensures Mirrors(ChirpFilter(trig, sign, len, size), ConjChirp(trig, sign, len), len, len)
  {}

  lemma ChirpExponent(sign: int, m: int, k: int, d: int)
    requires d == Dist(k, m)
    ensures sign * m * m + -(sign * d * d) + sign * k * k == 2 * (sign * m * k)
  {
    assert d * d == (k - m) * (k - m);
  }

  /** c[m] * conj(c[|k - m|]) * c[k] is the len-th root raised to
      sign * m * k, because m^2 - (k - m)^2 + k^2 = 2 m k. */
  lemma ChirpProduct(trig: Trig, len: nat, sign: int, m: int, k: int)
    requires UnitCircle(trig) && len > 0
    ensures Mul(Mul(Root(trig, 2 * len, sign * m * m), Conj(Root(trig, 2 * len, sign * Dist(k, m) * Dist(k, m)))),
                Root(trig, 2 * len, sign * k * k))
         == Root(trig, len, sign * m * k)
  {
    var d := Dist(k, m);
    RootsCombined(trig, 2 * len, sign * m * m, sign * d * d, sign * k * k);
    ChirpExponent(sign, m, k, d);
    RootScale(trig, 2, len, sign * m * k);
  }

  /** w^a * conj(w^b) * w^c = w^(a - b + c) for an n-th root w. */
  lemma RootsCombined(trig: Trig, n: nat, a: int, b: int, c: int)
    requires UnitCircle(trig) && n > 0
    ensures Mul(Mul(Root(trig, n, a), Conj(Root(trig, n, b))), Root(trig, n, c)) == Root(trig, n, a + -b + c)
  {
    RootConj(trig, n, b);
    RootAdd(trig, n, a, -b);
    RootAdd(trig, n, a + -b, c);
  }

  lemma ChirpTerm(trig: Trig, zm: Complex, len: nat, sign: int, m: int, k: int)
    requires UnitCircle(trig) && len > 0
    ensures Mul(Mul(Mul(zm, Root(trig, 2 * len, sign * m * m)), Conj(Root(trig, 2 * len, sign * Dist(k, m) * Dist(k, m)))),
                Root(trig, 2 * len, sign * k * k))
         == Mul(zm, Root(trig, len, sign * m * k))
  {
    var c1 := Root(trig, 2 * len, sign * m * m);
    var c2 := Conj(Root(trig, 2 * len, sign * Dist(k, m) * Dist(k, m)));
    var c3 := Root(trig, 2 * len, sign * k * k);
    MulAssoc(zm, c1, c2);
    MulAssoc(zm, Mul(c1, c2), c3);
    ChirpProduct(trig, len, sign, m, k);
  }

  lemma BluesteinEntry(trig: Trig, z: seq<Complex>, sign: int, size: nat, k: int, m: int)
    requires UnitCircle(trig) && 0 < |z| && size >= 2 * |z| - 1
    requires 0 <= k < |z| && 0 <= m < |z|
    ensures forall j :: 0 <= j < |z| ==> Dist(k, j) < |ConjChirp(trig, sign, |z|)|
    ensures MulRight(CorrelationTerms(ChirpedInput(trig, z, sign, size), ConjChirp(trig, sign, |z|), |z|, k),
                     Chirp(trig, sign, |z|)[k])[m]
         == Terms(trig, z, sign, k)[m]
  {
    var len := |z|;
    var d := Dist(k, m);
    assert MulRight(CorrelationTerms(ChirpedInput(trig, z, sign, size), ConjChirp(trig, sign, len), len, k),
                    Chirp(trig, sign, len)[k])[m]
        == Mul(Mul(Mul(z[m], Root(trig, 2 * len, sign * m * m)), Conj(Root(trig, 2 * len, sign * d * d))),
               Root(trig, 2 * len, sign * k * k));
    ChirpTerm(trig, z[m], len, sign, m, k);
  }

  /** Bluestein's identity: sample k of the circular convolution of the
      chirped input with the mirrored conjugate chirp, multiplied back by
      the chirp (by conj(b[k])), is coefficient k of the transform. */
  lemma BluesteinIdentity(trig: Trig, z: seq<Complex>, sign: int, size: nat, k: int)
    requires UnitCircle(trig) && 0 < |z| && size >= 2 * |z| - 1
    requires 0 <= k < |z|
    ensures Mul(Circular(ChirpedInput(trig, z, sign, size), ChirpFilter(trig, sign, |z|, size))[k],
                Conj(ChirpFilter(trig, sign, |z|, size)[k]))
         == Spectrum(trig, z, sign, k)
  {
    var len := |z|;
    var a := ChirpedInput(trig, z, sign, size);
    var b := ChirpFilter(trig, sign, len, size);
    var g := ConjChirp(trig, sign, len);
    var ck := Chirp(trig, sign, len)[k];
    ChirpedInputSupport(trig, z, sign, size);
    ChirpFilterMirrors(trig, sign, len, size);
    MirroredConvolution(a, b, g, len, len, k);
    assert Conj(b[k]) == ck by {
      ConjConj(ck);
    }
    var t := CorrelationTerms(a, g, len, k);
    TotalMulRight(t, ck);
    forall m | 0 <= m < len
      ensures MulRight(t, ck)[m] == Terms(trig, z, sign, k)[m]
    {
      BluesteinEntry(trig, z, sign, size, k, m);
    }
    assert MulRight(t, ck) == Terms(trig, z, sign, k);
  }

  // The transform on a frequency grid (fftRange).

  /** The angle of input sample n: frequency hzStart + hzStep * n / 2. */
  function InputAngle(hzStart: real, hzStep: real, n: int, n0: nat): real
    requires n0 > 0
  {
    RangeAngle(hzStart + hzStep * n as real / 2.0, n, n0)
  }

  /** The angle of the filter at distance d: frequency hzStep * d / 2. */
  function ChirpAngle(hzStep: real, d: int, n0: nat): real
    requires n0 > 0
  {
    RangeAngle(hzStep * d as real / 2.0, d, n0)
  }

  /** The array `a` of fftRange: sample n turned by the angle of frequency
      hzStart + hzStep * n / 2, padded with zeros to `size` samples. */
  function RangeInput(trig: Trig, x: seq<Complex>, hzStart: real, hzStep: real, size: nat): (a: seq<Complex>)
    requires 0 < |x| <= size
    ensures |a| == size
    ensures forall n :: 0 <= n < |x| ==>
              a[n] == Mul(x[n], Cis(trig, InputAngle(hzStart, hzStep, n, |x|)))
  {
    seq(size, n requires 0 <= n < size =>
      if n < |x| then Mul(x[n], Cis(trig, InputAngle(hzStart, hzStep, n, |x|))) else Zero)
  }

  /** The filter of fftRange: the conjugate of the angle of frequency
      hzStep * d / 2 at distance d, for the first `count` distances. */
  function RangeChirp(trig: Trig, hzStep: real, n0: nat, count: nat): (g: seq<Complex>)
    requires n0 > 0
    ensures |g| == count
    ensures forall d :: 0 <= d < count ==> g[d] == Conj(Cis(trig, ChirpAngle(hzStep, d, n0)))
  {
    seq(count, d requires 0 <= d < count => Conj(Cis(trig, ChirpAngle(hzStep, d, n0))))
  }

  function Max(a: nat, b: nat): nat {
    if a >= b then a else b
  }

  /** The array `b` of fftRange: the filter at 0 .. len - 1, then mirrored
      at size - 1 down to size - n0 + 1, zero elsewhere. */
  function RangeFilter(trig: Trig, hzStep: real, n0: nat, len: nat, size: nat): (b: seq<Complex>)
    requires n0 > 0 && len <= size && n0 <= size
    ensures |b| == size
  {
    var g := RangeChirp(trig, hzStep, n0, Max(n0, len));
    seq(size, i requires 0 <= i < size =>
      if size - i < n0 then g[size - i] else if i < len then g[i] else Zero)
  }

  lemma RangeInputSupport(trig: Trig, x: seq<Complex>, hzStart: real, hzStep: real, size: nat)
    requires 0 < |x| <= size
    ensures SupportedBelow(RangeInput(trig, x, hzStart, hzStep, size), |x|)
  {}

  /** With size >= n0 + len - 1 the head (len entries) and the mirrored
      tail (n0 - 1 entries) of b are disjoint. */
  lemma RangeFilterMirrors(trig: Trig, hzStep: real, n0: nat, len: nat, size: nat)
    requires n0 > 0 && len > 0 && size >= n0 + len - 1
    ensures Mirrors(RangeFilter(trig, hzStep, n0, len, size), RangeChirp(trig, hzStep, n0, Max(n0, len)), n0, len)
  {
    var b := RangeFilter(trig, hzStep, n0, len, size);
    var g := RangeChirp(trig, hzStep, n0, Max(n0, len));
    forall d | 0 <= d < len
      ensures b[d] == g[d]
    {
      assert !(size - d < n0);
    }
    forall d | 1 <= d < n0
      ensures b[|b| - d] == g[d]
    {
      assert size - (size - d) == d;
    }
  }

  /** The angle is linear in the frequency. */
  lemma RangeAngleSplit(a: real, b: real, n: int, n0: nat)
    requires n0 > 0
    ensures RangeAngle(a + b, n, n0) == RangeAngle(a, n, n0) + RangeAngle(b, n, n0)
  {}

  /** The chirp angle at distance e is c e^2 with c = -hzStep / (2 n0). */
  lemma ChirpAngleQuadratic(hzStep: real, e: int, n0: nat)
    requires n0 > 0
    ensures RangeAngle(hzStep * e as real / 2.0, e, n0) == (-hzStep / (2.0 * n0 as real)) * (e * e) as real
  {
    var c := -hzStep / (2.0 * n0 as real);
    assert (e * e) as real == e as real * e as real;
    assert c * (2.0 * n0 as real) == -hzStep;
  }

  /** The output angle of fftRange's cross term is the same c times 2 m k. */
  lemma CrossAngle(hzStep: real, m: int, k: int, n0: nat)
    requires n0 > 0
    ensures RangeAngle(hzStep * k as real, m, n0) == (-hzStep / (2.0 * n0 as real)) * (2 * m * k) as real
  {
    var c := -hzStep / (2.0 * n0 as real);
    assert (2 * m * k) as real == 2.0 * (m as real * k as real);
    assert c * (2.0 * n0 as real) == -hzStep;
  }

  /** m^2 - |k - m|^2 + k^2 = 2 m k. */
  lemma SquareSum(m: int, k: int)
    ensures m * m - Dist(k, m) * Dist(k, m) + k * k == 2 * m * k
  {
    var d := Dist(k, m);
    assert d * d == (k - m) * (k - m);
  }

  lemma ScaleSum(c: real, a: int, b: int, e: int, f: int)
    requires a - b + e == f
    ensures c * a as real + -(c * b as real) + c * e as real == c * f as real
  {
    assert a as real - b as real + e as real == f as real;
  }

  /** The angle identity for any distance d whose square is (k - m)^2. */
  lemma AngleSum(hzStart: real, hzStep: real, m: int, k: int, d: int, n0: nat)
    requires n0 > 0 && m * m - d * d + k * k == 2 * m * k
    ensures InputAngle(hzStart, hzStep, m, n0) + -ChirpAngle(hzStep, d, n0) + ChirpAngle(hzStep, k, n0)
         == RangeAngle(Frequency(hzStart, hzStep, k), m, n0)
  {
    var c := -hzStep / (2.0 * n0 as real);
    RangeAngleSplit(hzStart, hzStep * m as real / 2.0, m, n0);
    RangeAngleSplit(hzStart, hzStep * k as real, m, n0);
    ChirpAngleQuadratic(hzStep, m, n0);
    ChirpAngleQuadratic(hzStep, d, n0);
    ChirpAngleQuadratic(hzStep, k, n0);
    CrossAngle(hzStep, m, k, n0);
    ScaleSum(c, m * m, d * d, k * k, 2 * m * k);
  }

  lemma RangeAngleSum(hzStart: real, hzStep: real, m: int, k: int, n0: nat)
    requires n0 > 0
    ensures InputAngle(hzStart, hzStep, m, n0) + -ChirpAngle(hzStep, Dist(k, m), n0) + ChirpAngle(hzStep, k, n0)
         == RangeAngle(Frequency(hzStart, hzStep, k), m, n0)
  {
    SquareSum(m, k);
    AngleSum(hzStart, hzStep, m, k, Dist(k, m), n0);
  }

  lemma RangeTerm(trig: Trig, xm: Complex, hzStart: real, hzStep: real, m: int, k: int, n0: nat)
    requires UnitCircle(trig) && n0 > 0
    ensures Mul(Mul(Mul(xm, Cis(trig, InputAngle(hzStart, hzStep, m, n0))),
                    Conj(Cis(trig, ChirpAngle(hzStep, Dist(k, m), n0)))),
                Cis(trig, ChirpAngle(hzStep, k, n0)))
         == Mul(xm, Cis(trig, RangeAngle(Frequency(hzStart, hzStep, k), m, n0)))
  {
    var al := InputAngle(hzStart, hzStep, m, n0);
    var be := ChirpAngle(hzStep, Dist(k, m), n0);
    var ga := ChirpAngle(hzStep, k, n0);
    MulAssoc(xm, Cis(trig, al), Conj(Cis(trig, be)));
    MulAssoc(xm, Mul(Cis(trig, al), Conj(Cis(trig, be))), Cis(trig, ga));
    CisAdd(trig, al, -be);
    CisAdd(trig, al + -be, ga);
    RangeAngleSum(hzStart, hzStep, m, k, n0);
  }

  lemma RangeEntry(trig: Trig, x: seq<Complex>, hzStart: real, hzStep: real, len: nat, size: nat, k: int, m: int)
    requires UnitCircle(trig) && 0 < |x| && 0 < len && size >= |x| + len - 1
    requires 0 <= k < len && 0 <= m < |x|
    ensures forall j :: 0 <= j < |x| ==> Dist(k, j) < |RangeChirp(trig, hzStep, |x|, Max(|x|, len))|
    ensures MulRight(CorrelationTerms(RangeInput(trig, x, hzStart, hzStep, size),
                                      RangeChirp(trig, hzStep, |x|, Max(|x|, len)), |x|, k),
                     Cis(trig, ChirpAngle(hzStep, k, |x|)))[m]
         == RangeTerms(trig, x, Frequency(hzStart, hzStep, k))[m]
  {
    var n0 := |x|;
    var a := RangeInput(trig, x, hzStart, hzStep, size);
    var g := RangeChirp(trig, hzStep, n0, Max(n0, len));
    var t := CorrelationTerms(a, g, n0, k);
    var ck := Cis(trig, ChirpAngle(hzStep, k, n0));
    assert MulRight(t, ck)[m] == Mul(Mul(a[m], g[Dist(k, m)]), ck);
    RangeTerm(trig, x[m], hzStart, hzStep, m, k, n0);
  }

  /** The chirp-z identity of fftRange: sample k of the circular
      convolution, multiplied by conj(b[k]), is the transform at frequency
      hzStart + hzStep * k, the k-th output of the test suite's dftRange. */
  lemma RangeIdentity(trig: Trig, x: seq<Complex>, hzStart: real, hzEnd: real, len: nat, size: nat, k: int)
    requires UnitCircle(trig) && 0 < |x| && 2 <= len && size >= |x| + len - 1
    requires 0 <= k < len
    ensures
      var hzStep := HzStep(hzStart, hzEnd, len);
      Mul(Circular(RangeInput(trig, x, hzStart, hzStep, size), RangeFilter(trig, hzStep, |x|, len, size))[k],
          Conj(RangeFilter(trig, hzStep, |x|, len, size)[k]))
      == ReferenceRange(trig, x, hzStart, hzEnd, len)[k]
  {
    var n0 := |x|;
    var hzStep := HzStep(hzStart, hzEnd, len);
    var a := RangeInput(trig, x, hzStart, hzStep, size);
    var b := RangeFilter(trig, hzStep, n0, len, size);
    var g := RangeChirp(trig, hzStep, n0, Max(n0, len));
    var ck := Cis(trig, ChirpAngle(hzStep, k, n0));
    RangeInputSupport(trig, x, hzStart, hzStep, size);
    RangeFilterMirrors(trig, hzStep, n0, len, size);
    MirroredConvolution(a, b, g, n0, len, k);
    assert Conj(b[k]) == ck by {
      assert b[k] == g[k];
      ConjConj(ck);
    }
    var t := CorrelationTerms(a, g, n0, k);
    TotalMulRight(t, ck);
    forall m | 0 <= m < n0
      ensures MulRight(t, ck)[m] == RangeTerms(trig, x, Frequency(hzStart, hzStep, k))[m]
    {
      RangeEntry(trig, x, hzStart, hzStep, len, size, k, m);
    }
    assert MulRight(t, ck) == RangeTerms(trig, x, Frequency(hzStart, hzStep, k));
  }
}
