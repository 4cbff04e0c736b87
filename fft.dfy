/** The transforms of lib/fft.ts on Float32Array buffers: `fft`, a mixed
    radix transform that falls back on Bluestein's algorithm, `fftRange`, a
    transform over a grid of frequencies, and `window`. */
module Fft {
  import opened Complex
  import opened Sums
  import opened Trig
  import opened Dft
  import opened Convolution
  import opened Bluestein
  import opened Stages
  import opened Plan
  import opened Pow2
  import opened Buffer

  /** Writes sample k of an interleaved buffer: its real part at 2k, its
      imaginary part at 2k + 1. */
  method Store(a: array<real>, k: nat, z: Complex)
    requires a.Length % 2 == 0 && 2 * k + 1 < a.Length
    modifies a
    ensures a[..] == Put(old(a[..]), k, z)
    ensures Samples(a[..]) == Samples(old(a[..]))[k := z]
  {
    SamplesPut(a[..], k, z);
    a[2 * k] := z.re;
    a[2 * k + 1] := z.im;
  }

  /** Reads sample k of an interleaved buffer. */
  method Load(a: array<real>, k: nat) returns (z: Complex)
    requires a.Length % 2 == 0 && 2 * k + 1 < a.Length
    ensures k < |Samples(a[..])| && z == Samples(a[..])[k]
  {
    z := Complex(a[2 * k], a[2 * k + 1]);
  }

  /** The table `w` of fft: sample j is e^(sign * 2 pi i j / n). */
  method ComputeTwiddles(trig: Trig, sign: int, n: nat) returns (w: array<real>)
    ensures fresh(w) && w.Length == 2 * n
    ensures Samples(w[..]) == Twiddles(trig, sign, n)
  {
    DoubleEven(n);
    w := new real[2 * n](_ => 0.0);
    for j := 0 to n
      invariant forall i :: 0 <= i < j ==> Samples(w[..])[i] == Root(trig, n, sign * i)
    {
      Store(w, j, Root(trig, n, sign * j));
    }
  }

  /** The radix-2 stage (the `len1 === 2` branch): butterfly (n2, offset)
      reads samples stride * n2 + offset and stride * (n2 + len2) + offset
      of y1 and writes their sum and their twiddled difference to samples
      stride * 2 n2 + offset and stride * (2 n2 + 1) + offset of y2. */
  method Radix2Stage(y1: array<real>, y2: array<real>, w: array<real>, stride: nat, len2: nat)
    requires y1 != y2 && w != y2
    requires y1.Length == y2.Length == w.Length == 2 * (stride * (2 * len2)) && y1.Length > 0
    modifies y2
    ensures Radix2Computed(Samples(y1[..]), Samples(w[..]), Samples(y2[..]), stride, len2)
  {
    var size := y1.Length / 2;
    ghost var y, tw := Samples(y1[..]), Samples(w[..]);
    for n2 := 0 to len2
      invariant Radix2Upto(y, tw, Samples(y2[..]), stride, len2, n2, 0)
    {
      var wi := (stride * n2) % size;
      assert wi == TwiddleIndex(stride, n2, 1, size);
      for offset := 0 to stride
        invariant Radix2Upto(y, tw, Samples(y2[..]), stride, len2, n2, offset)
      {
        Radix2Butterfly(y1, y2, w, stride, len2, n2, offset, wi, y, tw);
      }
      Radix2NextRow(y, tw, Samples(y2[..]), stride, len2, n2);
    }
    Radix2Finished(y, tw, Samples(y2[..]), stride, len2);
  }

  /** The body of the inner radix-2 loop: the butterfly of column offset,
      row n2, with the twiddle at wi. */
  method Radix2Butterfly(y1: array<real>, y2: array<real>, w: array<real>, stride: nat, len2: nat,
                         n2: nat, offset: nat, wi: nat, ghost y: seq<Complex>, ghost tw: seq<Complex>)
    requires y1 != y2 && w != y2
    requires y1.Length == y2.Length == w.Length == 2 * (stride * (2 * len2)) && y1.Length > 0
    requires y == Samples(y1[..]) && tw == Samples(w[..])
    requires n2 < len2 && offset < stride && wi == TwiddleIndex(stride, n2, 1, y1.Length / 2)
    requires Radix2Upto(y, tw, Samples(y2[..]), stride, len2, n2, offset)
    modifies y2
    ensures Radix2Upto(y, tw, Samples(y2[..]), stride, len2, n2, offset + 1)
  {
    var ai := stride * n2 + offset;
    var bi := stride * (n2 + len2) + offset;
    assert ai == Source(stride, len2, 0, n2, offset) && bi == Source(stride, len2, 1, n2, offset);
    SourceBound(stride, 2, len2, 0, n2, offset);
    SourceBound(stride, 2, len2, 1, n2, offset);
    var a := Load(y1, ai);
    var b := Load(y1, bi);
    var wn := Load(w, wi);
    var i0 := stride * (2 * n2 + 0) + offset;
    var i1 := stride * (2 * n2 + 1) + offset;
    Radix2Slots(stride, n2, offset);
    Radix2Advance(y, tw, Samples(y2[..]), stride, len2, n2, offset);
    Store(y2, i0, Add(a, b));
    Store(y2, i1, Mul(Sub(a, b), wn));
  }

  lemma Radix2Slots(stride: nat, n2: nat, offset: nat)
    ensures stride * (2 * n2 + 0) + offset == Slot(stride, 2, n2, 0, offset)
    ensures stride * (2 * n2 + 1) + offset == Slot(stride, 2, n2, 1, offset)
  {}

  /** The stage for radix 3, 5 or 7 (the `factors.includes(len1)` branch):
      y2 is cleared, then sample stride * (r n2 + k1) + offset accumulates
      the r terms y1[stride * (len2 n1 + n2) + offset] * w[(stride n k1) % N],
      n = len2 n1 + n2. */
  method GeneralStage(y1: array<real>, y2: array<real>, w: array<real>, stride: nat, r: nat, len2: nat)
    requires y1 != y2 && w != y2
    requires y1.Length == y2.Length == w.Length == 2 * (stride * (r * len2)) && y1.Length > 0
    modifies y2
    ensures StageComputed(Samples(y1[..]), Samples(w[..]), Samples(y2[..]), stride, r, len2)
  {
    var size := y1.Length / 2;
    ghost var y, tw := Samples(y1[..]), Samples(w[..]);
    Fill(y2, 0.0);
    AccumulateStart(y, tw, Samples(y2[..]), stride, r, len2);
    for k1 := 0 to r
      invariant Accumulated(y, tw, Samples(y2[..]), stride, r, len2, k1, 0, 0, 0)
    {
      for n1 := 0 to r
        invariant Accumulated(y, tw, Samples(y2[..]), stride, r, len2, k1, n1, 0, 0)
      {
        for n2 := 0 to len2
          invariant Accumulated(y, tw, Samples(y2[..]), stride, r, len2, k1, n1, n2, 0)
        {
          AccumulateColumn(y1, y2, w, stride, r, len2, k1, n1, n2);
          AccumulateNextRow(y, tw, Samples(y2[..]), stride, r, len2, k1, n1, n2);
        }
        AccumulateNextTerm(y, tw, Samples(y2[..]), stride, r, len2, k1, n1);
      }
      AccumulateNextOutput(y, tw, Samples(y2[..]), stride, r, len2, k1);
    }
    AccumulateFinished(y, tw, Samples(y2[..]), stride, r, len2);
  }

  /** `y2.fill(v)`. */
  method Fill(a: array<real>, v: real)
    modifies a
    ensures forall i :: 0 <= i < a.Length ==> a[i] == v
  {
    for i := 0 to a.Length
      invariant forall j :: 0 <= j < i ==> a[j] == v
    {
      a[i] := v;
    }
  }

  /** The innermost loop of the general stage: term n1 goes into output
      (k1, n2, offset) for every offset. */
  method AccumulateColumn(y1: array<real>, y2: array<real>, w: array<real>, stride: nat, r: nat, len2: nat,
                          k1: nat, n1: nat, n2: nat)
    requires y1 != y2 && w != y2
    requires y1.Length == y2.Length == w.Length == 2 * (stride * (r * len2)) && y1.Length > 0
    requires k1 < r && n1 < r && n2 < len2
    requires Accumulated(Samples(y1[..]), Samples(w[..]), Samples(y2[..]), stride, r, len2, k1, n1, n2, 0)
    modifies y2
    ensures Accumulated(Samples(y1[..]), Samples(w[..]), Samples(y2[..]), stride, r, len2, k1, n1, n2, stride)
  {
    var size := y1.Length / 2;
    ghost var y, tw := Samples(y1[..]), Samples(w[..]);
    var k := r * n2 + k1;
    var n := len2 * n1 + n2;
    var wi := (stride * n * k1) % size;
    assert n == Offset(len2, n1, n2) && wi == TwiddleIndex(stride, Offset(len2, n1, n2), k1, size);
    for offset := 0 to stride
      invariant Accumulated(y, tw, Samples(y2[..]), stride, r, len2, k1, n1, n2, offset)
    {
      var kk := stride * k + offset;
      var nn := stride * n + offset;
      assert kk == Slot(stride, r, n2, k1, offset) && nn == Source(stride, len2, n1, n2, offset);
      SlotBound(stride, r, len2, n2, k1, offset);
      SourceBound(stride, r, len2, n1, n2, offset);
      var y1n := Load(y1, nn);
      var wn := Load(w, wi);
      var acc := Load(y2, kk);
      assert Mul(y1n, wn) == StageTerms(y, tw, stride, r, len2, k1, n2, offset)[n1];
      AccumulateStep(y, tw, Samples(y2[..]), stride, r, len2, k1, n1, n2, offset);
      Store(y2, kk, Add(acc, Mul(y1n, wn)));
    }
  }

  /** `y_fft[n] = a_fft[n] * b_fft[n]`. */
  method PointwiseProduct(p: array<real>, q: array<real>) returns (r: array<real>)
    requires p.Length == q.Length && p.Length % 2 == 0
    ensures fresh(r) && r.Length == p.Length
    ensures Samples(r[..]) == Pointwise(Samples(p[..]), Samples(q[..]))
  {
    r := new real[p.Length](_ => 0.0);
    for n := 0 to p.Length / 2
      invariant forall m :: 0 <= m < n ==> Samples(r[..])[m] == Mul(Samples(p[..])[m], Samples(q[..])[m])
    {
      var an := Load(p, n);
      var bn := Load(q, n);
      Store(r, n, Mul(an, bn));
    }
  }

  // Bluestein's algorithm, the `len2 == 1` branch of fft.

  /** The chirp table `w2`: sample n is e^(sign * pi i n^2 / len). */
  method ChirpTable(trig: Trig, sign: int, len: nat) returns (w2: array<real>)
    requires len > 0
    ensures fresh(w2) && w2.Length == 2 * len
    ensures Samples(w2[..]) == Chirp(trig, sign, len)
  {
    DoubleEven(len);
    w2 := new real[2 * len](_ => 0.0);
    for n := 0 to len
      invariant forall m :: 0 <= m < n ==> Samples(w2[..])[m] == Root(trig, 2 * len, sign * m * m)
    {
      Store(w2, n, Root(trig, 2 * len, sign * n * n));
    }
  }

  /** The array `a` for column offset: sample n < len is
      y1[stride * n + offset] * w2[n], the rest is zero. */
  method ChirpInput(trig: Trig, y1: array<real>, w2: array<real>, sign: int, stride: nat, offset: nat, len: nat, size: nat)
    returns (a: array<real>)
    requires y1.Length == 2 * (stride * len) && offset < stride && 0 < len <= size
    requires w2.Length == 2 * len && Samples(w2[..]) == Chirp(trig, sign, len)
    ensures fresh(a) && a.Length == 2 * size
    ensures Samples(a[..]) == ChirpedInput(trig, Strided(Samples(y1[..]), stride, offset, len), sign, size)
  {
    ghost var z := Strided(Samples(y1[..]), stride, offset, len);
    ghost var c := Chirp(trig, sign, len);
    DoubleEven(size);
    a := new real[2 * size](_ => 0.0);
    for n := 0 to len
      invariant |Samples(a[..])| == size
      invariant forall m :: 0 <= m < n ==> Samples(a[..])[m] == Mul(z[m], c[m])
      invariant forall m :: n <= m < size ==> Samples(a[..])[m] == Zero
    {
      ChirpInputSample(trig, y1, w2, a, sign, stride, offset, len, n, z);
    }
  }

  /** The loop body of ChirpInput: sample n of a becomes
      y1[stride * n + offset] * w2[n]. */
  method ChirpInputSample(trig: Trig, y1: array<real>, w2: array<real>, a: array<real>, sign: int,
                          stride: nat, offset: nat, len: nat, n: nat, ghost z: seq<Complex>)
    requires a != y1 && a != w2
    requires y1.Length == 2 * (stride * len) && offset < stride && n < len && 2 * len <= a.Length
    requires w2.Length == 2 * len && Samples(w2[..]) == Chirp(trig, sign, len)
    requires a.Length % 2 == 0 && z == Strided(Samples(y1[..]), stride, offset, len)
    modifies a
    ensures Samples(a[..]) == Samples(old(a[..]))[n := Mul(z[n], Chirp(trig, sign, len)[n])]
  {
    var y1i := stride * n + offset;
    StridedAt(Samples(y1[..]), stride, offset, len, n);
    var y1n := Load(y1, y1i);
    var w2n := Load(w2, n);
    Store(a, n, Mul(y1n, w2n));
  }

  /** The array `b`: the conjugated chirp at samples 0 .. len - 1, then
      mirrored at samples size - 1 down to size - len + 1. */
  method ChirpBuffer(trig: Trig, w2: array<real>, sign: int, len: nat, size: nat) returns (b: array<real>)
    requires 0 < len <= size
    requires w2.Length == 2 * len && Samples(w2[..]) == Chirp(trig, sign, len)
    ensures fresh(b) && b.Length == 2 * size
    ensures Samples(b[..]) == ChirpFilter(trig, sign, len, size)
  {
    ghost var g := ConjChirp(trig, sign, len);
    DoubleEven(size);
    b := new real[2 * size](_ => 0.0);
    assert Samples(b[..]) == MirroredUpto(g, size, 1, 0);
    for n := 0 to len
      invariant Samples(b[..]) == MirroredUpto(g, size, 1, n)
    {
      var w2n := Load(w2, n);
      HeadNext(g, size, n);
      Store(b, n, Conj(w2n));
    }
    for n := 1 to len
      invariant Samples(b[..]) == MirroredUpto(g, size, n, len)
    {
      var w2n := Load(w2, n);
      MirroredNext(g, size, n, len);
      Store(b, size - n, Conj(w2n));
    }
  }

  /** b while it is being written: the head g[0 .. head - 1], then the
      mirrored samples size - 1 down to size - tail + 1. */
  function MirroredUpto(g: seq<Complex>, size: nat, tail: nat, head: nat): (b: seq<Complex>)
    requires head <= |g| && tail <= |g| && |g| <= size
    ensures |b| == size
  {
    seq(size, i requires 0 <= i < size => if size - i < tail then g[size - i] else if i < head then g[i] else Zero)
  }

  /** The write at n extends the head by one. */
  lemma HeadNext(g: seq<Complex>, size: nat, n: nat)
    requires n < |g| <= size
    ensures MirroredUpto(g, size, 1, n + 1) == MirroredUpto(g, size, 1, n)[n := g[n]]
  {}

  /** The mirrored write at size - n extends the tail by one. */
  lemma MirroredNext(g: seq<Complex>, size: nat, n: nat, head: nat)
    requires 1 <= n < |g| <= size && head <= |g|
    ensures MirroredUpto(g, size, n + 1, head) == MirroredUpto(g, size, n, head)[size - n := g[n]]
  {}

  /** The circular convolution of a and b through the transforms of
      Bluestein's branch: `fft(a_fft * b_fft, true)` with both factors
      transformed forward. */
  method Convolve(trig: Trig, a: array<real>, b: array<real>) returns (y: array<real>)
    requires a.Length == b.Length && a.Length % 2 == 0 && IsPow2(a.Length / 2)
    ensures fresh(y) && y.Length == a.Length
    ensures UnitCircle(trig) ==> Samples(y[..]) == Circular(Samples(a[..]), Samples(b[..]))
    decreases 1, 0
  {
    Pow2Rough(a.Length / 2);
    var aF := Fft(trig, a, false);
    var bF := Fft(trig, b, false);
    var yF := PointwiseProduct(aF, bF);
    y := Fft(trig, yF, true);
    if UnitCircle(trig) {
      ConvolutionTheorem(trig, Samples(a[..]), Samples(b[..]));
    }
  }

  /** One column of Bluestein's stage: the len samples y1[stride * n + offset]
      are chirped, convolved with b, and multiplied by conj(b[k]) into
      y2[stride * k + offset]. No other sample of y2 changes. */
  method BluesteinColumn(trig: Trig, y1: array<real>, y2: array<real>, w2: array<real>, sign: int,
                         stride: nat, offset: nat, len: nat, size: nat)
    requires y1 != y2 && w2 != y2
    requires y1.Length == y2.Length == 2 * (stride * len) && offset < stride && len > 0
    requires w2.Length == 2 * len && Samples(w2[..]) == Chirp(trig, sign, len)
    requires IsPow2(size) && size >= 2 * len - 1
    modifies y2
    ensures UnitCircle(trig) ==>
              forall k: nat :: k < len ==>
                Offset(stride, k, offset) < |Samples(y2[..])|
                && Samples(y2[..])[Offset(stride, k, offset)] == Spectrum(trig, Strided(Samples(y1[..]), stride, offset, len), sign, k)
    ensures OtherColumns(Samples(y2[..]), Samples(old(y2[..])), stride, offset, len)
    decreases 1, 1
  {
    ghost var z := Strided(Samples(y1[..]), stride, offset, len);
    var a := ChirpInput(trig, y1, w2, sign, stride, offset, len, size);
    var b := ChirpBuffer(trig, w2, sign, len, size);
    var y := Convolve(trig, a, b);
    Demodulate(y, b, y2, stride, offset, len);
    if UnitCircle(trig) {
      forall k: nat | k < len
        ensures Mul(Samples(y[..])[k], Conj(Samples(b[..])[k])) == Spectrum(trig, z, sign, k)
      {
        BluesteinIdentity(trig, z, sign, size, k);
      }
    }
  }

  /** The last loop of a Bluestein column: y2[stride * k + offset] is
      y[k] * conj(b[k]) for k < len; no other sample of y2 changes. */
  method Demodulate(y: array<real>, b: array<real>, y2: array<real>, stride: nat, offset: nat, len: nat)
    requires y != y2 && b != y2
    requires y.Length == b.Length && y.Length % 2 == 0 && 2 * len <= y.Length
    requires y2.Length == 2 * (stride * len) && offset < stride
    modifies y2
    ensures forall k: nat :: k < len ==>
              Offset(stride, k, offset) < |Samples(y2[..])|
              && Samples(y2[..])[Offset(stride, k, offset)] == Mul(Samples(y[..])[k], Conj(Samples(b[..])[k]))
    ensures OtherColumns(Samples(y2[..]), Samples(old(y2[..])), stride, offset, len)
  {
    ghost var before := Samples(y2[..]);
    ghost var Y, B := Samples(y[..]), Samples(b[..]);
    ghost var v := seq(len, j requires 0 <= j < len => Mul(Y[j], Conj(B[j])));
    OtherColumnsStart(before, stride, offset, len);
    for k := 0 to len
      invariant ColumnHolds(Samples(y2[..]), v, stride, offset, k)
      invariant OtherColumns(Samples(y2[..]), before, stride, offset, len)
    {
      var y2i := stride * k + offset;
      var yn := Load(y, k);
      var bn := Load(b, k);
      assert Mul(yn, Conj(bn)) == v[k];
      ColumnStep(Samples(y2[..]), before, v, stride, offset, len, k);
      assert y2i == Offset(stride, k, offset);
      Store(y2, y2i, Mul(yn, Conj(bn)));
    }
  }

  /** Samples stride * j + offset of s hold v[j] for j < k. */
  predicate ColumnHolds(s: seq<Complex>, v: seq<Complex>, stride: nat, offset: nat, k: nat) {
    && k <= |v|
    && forall j: nat :: j < k ==> Offset(stride, j, offset) < |s| && s[Offset(stride, j, offset)] == v[j]
  }

  /** s agrees with before on every column of length len but offset. */
  predicate OtherColumns(s: seq<Complex>, before: seq<Complex>, stride: nat, offset: nat, len: nat) {
    && |s| == |before| == stride * len
    && forall j: nat, o: nat :: j < len && o < stride && o != offset ==>
         Offset(stride, j, o) < |s| && s[Offset(stride, j, o)] == before[Offset(stride, j, o)]
  }

  lemma OtherColumnsStart(s: seq<Complex>, stride: nat, offset: nat, len: nat)
    requires |s| == stride * len
    ensures OtherColumns(s, s, stride, offset, len)
  {
    forall j: nat, o: nat | j < len && o < stride
      ensures Offset(stride, j, o) < |s|
    {
      OffsetBound(len, stride, j, o);
    }
  }

  lemma ColumnStep(s: seq<Complex>, before: seq<Complex>, v: seq<Complex>, stride: nat, offset: nat, len: nat, k: nat)
    requires offset < stride && k < len == |v|
    requires ColumnHolds(s, v, stride, offset, k) && OtherColumns(s, before, stride, offset, len)
    ensures Offset(stride, k, offset) < |s|
    ensures ColumnHolds(s[Offset(stride, k, offset) := v[k]], v, stride, offset, k + 1)
    ensures OtherColumns(s[Offset(stride, k, offset) := v[k]], before, stride, offset, len)
  {
    OffsetBound(len, stride, k, offset);
    ColumnSlots(stride, len, offset, k);
  }

  /** Slot stride * k + offset belongs to column offset alone. */
  lemma ColumnSlots(stride: nat, len: nat, offset: nat, k: nat)
    requires offset < stride
    ensures forall j: nat, o: nat :: j < len && o < stride && o != offset ==> Offset(stride, j, o) != Offset(stride, k, offset)
    ensures forall j: nat :: j < k ==> Offset(stride, j, offset) != Offset(stride, k, offset)
  {
    forall j: nat, o: nat | o < stride && Offset(stride, j, o) == Offset(stride, k, offset)
      ensures j == k && o == offset
    {
      OffsetInjective(stride, j, o, k, offset);
    }
  }

  /** Bluestein's stage: every column of y1, of length len, is transformed
      into the same column of y2. */
  method BluesteinStage(trig: Trig, y1: array<real>, y2: array<real>, sign: int, stride: nat, len: nat)
    requires y1 != y2
    requires y1.Length == y2.Length == 2 * (stride * len) && len > 0
    requires 2 * len - 1 <= MaxPadded
    modifies y2
    ensures UnitCircle(trig) ==> StageDone(trig, Samples(y1[..]), Samples(y2[..]), sign, stride, len, 1)
    decreases 1, 2
  {
    var w2 := ChirpTable(trig, sign, len);
    var size := NextPow2(2 * len - 1);
    NextPow2Bounds(2 * len - 1);
    ghost var y := Samples(y1[..]);
    for offset := 0 to stride
      invariant UnitCircle(trig) ==>
                  forall k: nat, o: nat :: k < len && o < offset ==>
                    Offset(stride, k, o) < |Samples(y2[..])|
                    && Samples(y2[..])[Offset(stride, k, o)] == Spectrum(trig, Strided(y, stride, o, len), sign, k)
      invariant Samples(w2[..]) == Chirp(trig, sign, len)
    {
      BluesteinColumn(trig, y1, y2, w2, sign, stride, offset, len, size);
    }
    if UnitCircle(trig) {
      WholeStage(trig, y, Samples(y2[..]), sign, stride, len);
    }
  }

  /** One step of the radix loop: the stage the radix len1 = Radix(len)
      selects, writing y2 from y1. Radix 2 takes the radix-2 butterflies, 3,
      5 and 7 the general stage, and a length with none of these factors
      (so len2 = 1) Bluestein's algorithm; the `unexpected` error of the
      last branch cannot be reached. */
  method Stage(trig: Trig, y1: array<real>, y2: array<real>, w: array<real>, sign: int,
               stride: nat, len1: nat, len2: nat, lenOrig: nat, ghost x: seq<Complex>)
    requires y1 != y2 && w != y2
    requires len1 == Radix(len1 * len2) && len1 * len2 >= 2 && stride > 0 && stride * len1 > 0 && stride * (len1 * len2) == lenOrig
    requires y1.Length == y2.Length == w.Length == 2 * lenOrig && y1.Length % 2 == 0
    requires Samples(w[..]) == Twiddles(trig, sign, lenOrig) && (sign == 1 || sign == -1)
    requires IsPow2(lenOrig) ==> IsPow2(len1 * len2)
    requires 2 * Rough(len1 * len2) - 1 <= MaxPadded
    requires UnitCircle(trig) ==> Layout(trig, x, Samples(y1[..]), sign, stride, len1 * len2)
    modifies y2
    ensures UnitCircle(trig) ==> Layout(trig, x, Samples(y2[..]), sign, stride * len1, len2)
    decreases (if IsPow2(lenOrig) then 0 else 1), 3
  {
    var len := len1 * len2;
    RadixDivides(len);
    Pow2Radix(len);
    MulSign(len, stride);
    RadixCases(len1, len2);
    if len1 == 2 {
      Radix2Stage(y1, y2, w, stride, len2);
      if UnitCircle(trig) {
        Radix2Decimates(trig, Samples(y1[..]), Samples(y2[..]), sign, stride, len2);
      }
    } else if len1 in Factors {
      GeneralStage(y1, y2, w, stride, len1, len2);
      if UnitCircle(trig) {
        StageDecimates(trig, Samples(y1[..]), Samples(y2[..]), sign, stride, len1, len2);
      }
    } else if len2 == 1 {
      MulOne(len1, len2);
      RoughLast(len);
      assert !IsPow2(lenOrig);
      BluesteinStage(trig, y1, y2, sign, stride, len);
    } else {
      assert false;
    }
    if UnitCircle(trig) {
      LayoutStep(trig, x, Samples(y1[..]), Samples(y2[..]), sign, stride, len1, len2);
    }
  }

  lemma MulOne(a: nat, b: nat)
    requires b == 1
    ensures a * b == a
  {}

  /** `fft(x, inverse)`: the radix loop transforms a copy of x with the
      twiddle table of its length; the inverse then divides by the length. */
  method Fft(trig: Trig, x: array<real>, inverse: bool) returns (y: array<real>)
    requires x.Length % 2 == 0
    requires 2 * Rough(x.Length / 2) - 1 <= MaxPadded
    ensures fresh(y) && y.Length == x.Length
    ensures x.Length <= 2 ==> y[..] == x[..]
    ensures UnitCircle(trig) ==> Samples(y[..]) == Fourier(trig, Samples(x[..]), inverse)
    decreases (if IsPow2(x.Length / 2) then 0 else 1), 5
  {
    var lenOrig := x.Length / 2;
    var sign := if inverse then 1 else -1;
    var w := ComputeTwiddles(trig, sign, lenOrig);
    var y1 := new real[x.Length](i requires 0 <= i < x.Length reads x => x[i]);
    var y2 := new real[x.Length](_ => 0.0);
    assert y1[..] == x[..];
    y := RadixLoop(trig, y1, y2, w, sign, lenOrig);
    if inverse {
      Normalise(y, lenOrig);
      assert lenOrig == 1 ==> y[..] == x[..];
    }
  }

  /** The loop `while (len >= 2)` of fft: the remaining length len is
      factored as len1 * len2, one stage writes y2 from y1, the buffers
      swap and the stride grows by len1. It ends with len < 2, when the
      buffer it returns holds the transform of the input. */
  method RadixLoop(trig: Trig, y1: array<real>, y2: array<real>, w: array<real>, sign: int, lenOrig: nat)
    returns (y: array<real>)
    requires y1 != y2 && w != y1 && w != y2
    requires y1.Length == y2.Length == w.Length == 2 * lenOrig
    requires Samples(w[..]) == Twiddles(trig, sign, lenOrig) && (sign == 1 || sign == -1)
    requires 2 * Rough(lenOrig) - 1 <= MaxPadded
    modifies y1, y2
    ensures y == y1 || y == y2
    ensures lenOrig <= 1 ==> y == y1 && y[..] == old(y1[..])
    ensures UnitCircle(trig) ==> Samples(y[..]) == Transform(trig, Samples(old(y1[..])), sign)
    decreases (if IsPow2(lenOrig) then 0 else 1), 4
  {
    ghost var x := Samples(y1[..]);
    LayoutStart(trig, x, sign);
    var a, b := y1, y2;
    var len: nat, stride: nat := lenOrig, 1;
    while len >= 2
      invariant stride > 0 && stride * len == lenOrig
      invariant lenOrig <= 1 ==> a == y1 && a[..] == old(y1[..])
      invariant (a == y1 && b == y2) || (a == y2 && b == y1)
      invariant Samples(w[..]) == Twiddles(trig, sign, lenOrig)
      invariant IsPow2(lenOrig) ==> IsPow2(len)
      invariant 2 * Rough(len) - 1 <= MaxPadded
      invariant UnitCircle(trig) ==> Layout(trig, x, Samples(a[..]), sign, stride, len)
      decreases len
    {
      var len1 := Radix(len);
      var len2 := len / len1;
      StepArithmetic(stride, len, lenOrig);
      DoubleEven(lenOrig);
      RoughStep(len);
      Stage(trig, a, b, w, sign, stride, len1, len2, lenOrig, x);
      a, b := b, a;
      len := len2;
      stride := stride * len1;
    }
    if UnitCircle(trig) {
      FinishLayout(trig, x, Samples(a[..]), sign, stride, len);
    }
    y := a;
  }

  /** The arithmetic of one step of the radix loop: the radix splits len
      exactly, what is left is shorter, and the new stride times the new
      length is still the full length. */
  lemma StepArithmetic(stride: nat, len: nat, lenOrig: nat)
    requires len >= 2 && stride > 0 && stride * len == lenOrig
    ensures len == Radix(len) * (len / Radix(len)) && 1 <= len / Radix(len) < len
    ensures stride * Radix(len) > 0 && stride * Radix(len) * (len / Radix(len)) == lenOrig
    ensures lenOrig >= 2
    ensures IsPow2(len) ==> IsPow2(len / Radix(len))
  {
    RadixDivides(len);
    Pow2Radix(len);
    var r := Radix(len);
    StepProducts(stride, r, len / r, len, lenOrig);
  }

  lemma StepProducts(stride: nat, r: nat, q: nat, len: nat, lenOrig: nat)
    requires stride > 0 && r > 0 && len >= 2 && len == r * q && stride * len == lenOrig
    ensures stride * r > 0 && stride * r * q == lenOrig && lenOrig >= 2
  {
    MulSign(len, stride);
    MulAssoc3(stride, r, q);
    PositiveProduct(stride, r);
  }

  /** The inverse's normalisation: every number of the buffer is divided
      by the length n once. */
  method Normalise(a: array<real>, n: nat)
    requires a.Length == 2 * n
    modifies a
    ensures forall i :: 0 <= i < a.Length ==> a[i] == old(a[i]) / n as real
    ensures forall k :: 0 <= k < n ==> Samples(a[..])[k] == DivReal(Samples(old(a[..]))[k], n as real)
  {
    for k := 0 to a.Length
      invariant forall i :: 0 <= i < k ==> a[i] == old(a[i]) / n as real
      invariant forall i :: k <= i < a.Length ==> a[i] == old(a[i])
    {
      a[k] := a[k] / n as real;
    }
  }

  // fftRange.

  /** `fftRange(x, hz_start, hz_end, len)`: len coefficients of x at the
      frequencies hz_start + hz_step * k, hz_step = (hz_end - hz_start) /
      (len - 1), by the chirp-z transform: the turned input a is convolved
      with the filter b and sample k multiplied by conj(b[k]). */
  method FftRange(trig: Trig, x: array<real>, hzStart: real, hzEnd: real, len: nat) returns (y: array<real>)
    requires x.Length % 2 == 0 && x.Length / 2 + len - 1 <= MaxPadded
    requires len == 0 || (x.Length >= 2 && len >= 2)
    ensures fresh(y) && y.Length == 2 * len
    ensures UnitCircle(trig) && len > 0 ==> Samples(y[..]) == ReferenceRange(trig, Samples(x[..]), hzStart, hzEnd, len)
  {
    if len == 0 {
      // `slice(0, 2 * len)` keeps nothing of the convolution.
      y := new real[0];
      return;
    }
    var lenOrig := x.Length / 2;
    ghost var X := Samples(x[..]);
    var hzStep := (hzEnd - hzStart) / (len - 1) as real;
    assert hzStep == HzStep(hzStart, hzEnd, len);
    var size := NextPow2(lenOrig + len - 1);
    NextPow2Bounds(lenOrig + len - 1);
    var a := RangeBuffer(trig, x, hzStart, hzStep, size);
    var b := RangeFilterBuffer(trig, hzStep, lenOrig, len, size);
    ghost var B := Samples(b[..]);
    var c := Convolve(trig, a, b);
    ghost var Cc := Samples(c[..]);
    assert UnitCircle(trig) ==> Cc == Circular(RangeInput(trig, X, hzStart, hzStep, size), B);
    y := Slice(c, 2 * len);
    DoubleEven(len);
    ghost var C := Samples(y[..]);
    assert forall k :: 0 <= k < len ==> C[k] == Cc[k];
    DemodulateInPlace(y, b, len);
    assert B == Samples(b[..]);
    if UnitCircle(trig) {
      RangeOutput(trig, X, hzStart, hzEnd, len, size, Cc, B, Samples(y[..]));
    }
  }

  /** The demodulated prefix of the circular convolution is the reference
      spectrum of fftRange. */
  lemma RangeOutput(trig: Trig, x: seq<Complex>, hzStart: real, hzEnd: real, len: nat, size: nat,
                    c: seq<Complex>, b: seq<Complex>, y: seq<Complex>)
    requires UnitCircle(trig) && 0 < |x| && 2 <= len && size >= |x| + len - 1
    requires b == RangeFilter(trig, HzStep(hzStart, hzEnd, len), |x|, len, size)
    requires c == Circular(RangeInput(trig, x, hzStart, HzStep(hzStart, hzEnd, len), size), b)
    requires |y| == len && forall k :: 0 <= k < len ==> y[k] == Mul(c[k], Conj(b[k]))
    ensures y == ReferenceRange(trig, x, hzStart, hzEnd, len)
  {
    forall k | 0 <= k < len
      ensures y[k] == ReferenceRange(trig, x, hzStart, hzEnd, len)[k]
    {
      RangeIdentity(trig, x, hzStart, hzEnd, len, size, k);
    }
  }

  /** The last loop of fftRange: y[k] becomes y[k] * conj(b[k]). */
  method DemodulateInPlace(y: array<real>, b: array<real>, len: nat)
    requires y != b && y.Length == 2 * len && b.Length % 2 == 0 && 2 * len <= b.Length
    modifies y
    ensures forall k :: 0 <= k < len ==> Samples(y[..])[k] == Mul(Samples(old(y[..]))[k], Conj(Samples(b[..])[k]))
  {
    ghost var C := Samples(y[..]);
    for k := 0 to len
      invariant forall j :: 0 <= j < k ==> Samples(y[..])[j] == Mul(C[j], Conj(Samples(b[..])[j]))
      invariant forall j :: k <= j < len ==> Samples(y[..])[j] == C[j]
    {
      var yn := Load(y, k);
      var bn := Load(b, k);
      Store(y, k, Mul(yn, Conj(bn)));
    }
  }

  /** `c.slice(0, n)`. */
  method Slice(c: array<real>, n: nat) returns (y: array<real>)
    requires n <= c.Length
    ensures fresh(y) && y.Length == n && y[..] == c[..n]
  {
    y := new real[n](i requires 0 <= i < n reads c => c[i]);
  }

  /** The array `a` of fftRange: sample n < N of x turned by the angle of
      frequency hz_start + hz_step * n / 2, the rest zero. */
  method RangeBuffer(trig: Trig, x: array<real>, hzStart: real, hzStep: real, size: nat) returns (a: array<real>)
    requires x.Length % 2 == 0 && 0 < x.Length / 2 <= size
    ensures fresh(a) && a.Length == 2 * size
    ensures Samples(a[..]) == RangeInput(trig, Samples(x[..]), hzStart, hzStep, size)
  {
    var lenOrig := x.Length / 2;
    ghost var X := Samples(x[..]);
    DoubleEven(size);
    a := new real[2 * size](_ => 0.0);
    for n := 0 to lenOrig
      invariant forall m :: 0 <= m < n ==> Samples(a[..])[m] == Mul(X[m], Cis(trig, InputAngle(hzStart, hzStep, m, lenOrig)))
      invariant forall m :: n <= m < size ==> Samples(a[..])[m] == Zero
    {
      var w := Cis(trig, InputAngle(hzStart, hzStep, n, lenOrig));
      var xn := Load(x, n);
      Store(a, n, Mul(xn, w));
    }
  }

  /** The array `b` of fftRange: the conjugated chirp of frequency
      hz_step * n / 2 at samples 0 .. len - 1, then mirrored at samples
      size - 1 down to size - N + 1. */
  method RangeFilterBuffer(trig: Trig, hzStep: real, lenOrig: nat, len: nat, size: nat) returns (b: array<real>)
    requires 0 < lenOrig <= size && 0 < len <= size
    ensures fresh(b) && b.Length == 2 * size
    ensures Samples(b[..]) == RangeFilter(trig, hzStep, lenOrig, len, size)
  {
    ghost var g := RangeChirp(trig, hzStep, lenOrig, Max(lenOrig, len));
    DoubleEven(size);
    b := new real[2 * size](_ => 0.0);
    for n := 0 to len
      invariant forall i :: 0 <= i < size ==> Samples(b[..])[i] == MirroredUpto(g, size, 1, n)[i]
    {
      var w := Cis(trig, ChirpAngle(hzStep, n, lenOrig));
      Store(b, n, Conj(w));
    }
    for n := 1 to lenOrig
      invariant forall i :: 0 <= i < size ==> Samples(b[..])[i] == MirroredUpto(g, size, n, len)[i]
    {
      var w := Cis(trig, ChirpAngle(hzStep, n, lenOrig));
      MirroredNext(g, size, n, len);
      Store(b, size - n, Conj(w));
    }
    assert Samples(b[..]) == MirroredUpto(g, size, lenOrig, len);
  }

  // window.

  /** The coefficient of sample n of a window of length len:
      0.54 - 0.46 cos(2 pi n / len). */
  function Coefficient(trig: Trig, n: nat, len: nat): real
    requires len > 0
  {
    0.54 - 0.46 * trig.cos(n as real / len as real)
  }

  /** With the cosine in [-1, 1] the coefficient lies in [0.08, 1], so the
      inverse never divides by zero. */
  lemma CoefficientBounds(trig: Trig, n: nat, len: nat)
    requires Bounded(trig) && len > 0
    ensures 0.08 <= Coefficient(trig, n, len) <= 1.0
  {
    var t := n as real / len as real;
    assert -1.0 <= trig.cos(t) <= 1.0;
  }

  /** The windowed signal: sample n multiplied by its coefficient, or
      divided by it for the inverse. */
  function Windowed(trig: Trig, z: seq<Complex>, inverse: bool): (r: seq<Complex>)
    requires inverse ==> Bounded(trig)
    ensures |r| == |z|
  {
    seq(|z|, n requires 0 <= n < |z| =>
      if inverse then (CoefficientBounds(trig, n, |z|); DivReal(z[n], Coefficient(trig, n, |z|)))
      else Scale(Coefficient(trig, n, |z|), z[n]))
  }

  /** The inverse window undoes the window, and the other way round. */
  lemma WindowRoundTrip(trig: Trig, z: seq<Complex>)
    requires Bounded(trig)
    ensures Windowed(trig, Windowed(trig, z, false), true) == z
    ensures Windowed(trig, Windowed(trig, z, true), false) == z
  {
    forall n | 0 <= n < |z|
      ensures Windowed(trig, Windowed(trig, z, false), true)[n] == z[n]
      ensures Windowed(trig, Windowed(trig, z, true), false)[n] == z[n]
    {
      var c := Coefficient(trig, n, |z|);
      CoefficientBounds(trig, n, |z|);
      DivRealScale(z[n], c);
    }
  }

  /** `window(x, inverse)`: a copy of x with every sample windowed. */
  method Window(trig: Trig, x: array<real>, inverse: bool) returns (y: array<real>)
    requires x.Length % 2 == 0
    requires inverse ==> Bounded(trig)
    ensures fresh(y) && y.Length == x.Length
    ensures Samples(y[..]) == Windowed(trig, Samples(x[..]), inverse)
  {
    var len := x.Length / 2;
    y := new real[x.Length](i requires 0 <= i < x.Length reads x => x[i]);
    ghost var X := Samples(x[..]);
    ghost var W := Windowed(trig, X, inverse);
    assert Samples(y[..]) == X;
    assert |X| == len && |W| == len;
    for n := 0 to len
      invariant |Samples(y[..])| == len
      invariant forall m :: 0 <= m < n ==> Samples(y[..])[m] == W[m]
      invariant forall m :: n <= m < len ==> Samples(y[..])[m] == X[m]
    {
      WindowSample(trig, y, n, inverse, X);
    }
  }

  /** The loop body of window: sample n of y, still sample n of X, is
      multiplied or divided by its coefficient. */
  method WindowSample(trig: Trig, y: array<real>, n: nat, inverse: bool, ghost X: seq<Complex>)
    requires y.Length % 2 == 0 && |X| == y.Length / 2 && n < |X|
    requires inverse ==> Bounded(trig)
    requires Samples(y[..])[n] == X[n]
    modifies y
    ensures Samples(y[..]) == Samples(old(y[..]))[n := Windowed(trig, X, inverse)[n]]
  {
    var len := y.Length / 2;
    var c := 0.54 - 0.46 * trig.cos(n as real / len as real);
    var v := Load(y, n);
    WindowedAt(trig, X, inverse, n);
    if inverse {
      CoefficientBounds(trig, n, len);
      Store(y, n, DivReal(v, c));
    } else {
      Store(y, n, Scale(c, v));
    }
  }

  lemma WindowedAt(trig: Trig, z: seq<Complex>, inverse: bool, n: nat)
    requires inverse ==> Bounded(trig)
    requires n < |z|
    ensures Windowed(trig, z, inverse)[n]
         == if inverse then DivReal(z[n], 0.54 - 0.46 * trig.cos(n as real / |z| as real))
            else Scale(0.54 - 0.46 * trig.cos(n as real / |z| as real), z[n])
  {}
}
