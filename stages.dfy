/** One step of the radix loop of fft, as a relation between the buffer
    before the step (y1) and after it (y2).

    At a step with stride `stride` and remaining length `len = r * len2`
    the buffer holds `stride` interleaved columns of `len` samples each:
    sample n of column `off` sits at `stride * n + off`.  The step takes
    every column through one decimation in frequency of radix r and writes
    the r decimated columns of length len2 at the `stride * r` offsets
    `stride * k1 + off`. */
module Stages {
  import opened Complex
  import opened Sums
  import opened Trig
  import opened Dft

  /** The twiddle table `w`: entry j is e^(sign * 2 pi i j / n). */
  function Twiddles(trig: Trig, sign: int, n: nat): (w: seq<Complex>)
    ensures |w| == n
  {
    seq(n, j requires 0 <= j < n => Root(trig, n, sign * j))
  }

  lemma OffsetBound(rows: nat, cols: nat, i: nat, j: nat)
    requires i < rows && j < cols
    ensures Offset(cols, i, j) < cols * rows
  {
    GridIndex(rows, cols, i, j);
  }

  lemma MulSign(c: int, d: int)
    requires c > 0
    ensures d > 0 ==> c * d >= c
    ensures d < 0 ==> c * d <= -c
  {}

  lemma MulBetween(c: int, d: int, e: int)
    requires c > 0 && c * d == e && -c < e < c
    ensures d == 0
  {
    MulSign(c, d);
  }

  /** Row and column of a row-major position. */
  lemma OffsetDivMod(cols: nat, i: nat, j: nat)
    requires j < cols
    ensures Offset(cols, i, j) / cols == i && Offset(cols, i, j) % cols == j
  {
    var x := Offset(cols, i, j);
    var q := x / cols;
    var m := x % cols;
    assert cols * (q - i) == j - m;
    MulBetween(cols, q - i, j - m);
  }

  /** Row-major positions are unique. */
  lemma OffsetInjective(cols: nat, i: nat, j: nat, i': nat, j': nat)
    requires j < cols && j' < cols && Offset(cols, i, j) == Offset(cols, i', j')
    ensures i == i' && j == j'
  {
    OffsetDivMod(cols, i, j);
    OffsetDivMod(cols, i', j');
  }

  lemma QuotientBound(p: nat, d: nat, m: nat)
    requires d > 0 && p < d * m
    ensures p / d < m
  {}

  /** Column `off` of a buffer that interleaves `stride` columns. */
  function Strided(y: seq<Complex>, stride: nat, off: nat, len: nat): (c: seq<Complex>)
    requires off < stride && |y| == stride * len
    ensures |c| == len
  {
    GridIndices(len, stride);
    seq(len, n requires 0 <= n < len => y[Offset(stride, n, off)])
  }

  /** Where the step writes sample n2 of decimated column k1 of column off:
      `stride * (len1 * n2 + k1) + offset`. */
  function Slot(stride: nat, r: nat, n2: nat, k1: nat, off: nat): nat {
    Offset(stride, Offset(r, n2, k1), off)
  }

  /** Where the step reads sample n1 * len2 + n2 of column off:
      `stride * (len2 * n1 + n2) + offset`. */
  function Source(stride: nat, len2: nat, n1: nat, n2: nat, off: nat): nat {
    Offset(stride, Offset(len2, n1, n2), off)
  }

  /** The index `(stride * n * k1) % len_orig` of a twiddle in the table. */
  function TwiddleIndex(stride: nat, n: nat, k1: nat, size: nat): (i: nat)
    requires size > 0
    ensures i < size
  {
    (stride * n * k1) % size
  }

  /** Every slot lies inside the buffer of stride * r * len2 samples. */
  lemma SlotBound(stride: nat, r: nat, len2: nat, n2: nat, k1: nat, off: nat)
    requires n2 < len2 && k1 < r && off < stride
    ensures Slot(stride, r, n2, k1, off) < stride * (r * len2)
  {
    OffsetBound(len2, r, n2, k1);
    OffsetBound(r * len2, stride, Offset(r, n2, k1), off);
  }

  lemma SourceBound(stride: nat, r: nat, len2: nat, n1: nat, n2: nat, off: nat)
    requires n1 < r && n2 < len2 && off < stride
    ensures Offset(len2, n1, n2) < r * len2
    ensures Source(stride, len2, n1, n2, off) < stride * (r * len2)
  {
    OffsetBound(r, len2, n1, n2);
    OffsetBound(r * len2, stride, Offset(len2, n1, n2), off);
  }

  /** Distinct (k1, n2, off) write distinct slots. */
  lemma SlotInjective(stride: nat, r: nat, n2: nat, k1: nat, off: nat, n2': nat, k1': nat, off': nat)
    requires k1 < r && k1' < r && off < stride && off' < stride
    requires Slot(stride, r, n2, k1, off) == Slot(stride, r, n2', k1', off')
    ensures n2 == n2' && k1 == k1' && off == off'
  {
    OffsetInjective(stride, Offset(r, n2, k1), off, Offset(r, n2', k1'), off');
    OffsetInjective(r, n2, k1, n2', k1');
  }

  // What the stages compute, stated on the buffers they read and write.

  /** The r terms that the general stage adds into slot (k1, n2, off):
      `y1[n_] * w[wi]` for n1 = 0 .. len1 - 1. */
  function StageTerms(y: seq<Complex>, w: seq<Complex>, stride: nat, r: nat, len2: nat,
                      k1: nat, n2: nat, off: nat): (t: seq<Complex>)
    requires |y| == |w| == stride * (r * len2) && |y| > 0
    requires k1 < r && n2 < len2 && off < stride
    ensures |t| == r
  {
    seq(r, n1 requires 0 <= n1 < r =>
      SourceBound(stride, r, len2, n1, n2, off);
      Mul(y[Source(stride, len2, n1, n2, off)], w[TwiddleIndex(stride, Offset(len2, n1, n2), k1, |y|)]))
  }

  /** The general stage is done: every slot holds the sum of its terms. */
  predicate StageComputed(y: seq<Complex>, w: seq<Complex>, s: seq<Complex>, stride: nat, r: nat, len2: nat)
    requires |y| == |w| == stride * (r * len2) && |y| > 0
  {
    && |s| == |y|
    && forall k1: nat, n2: nat, off: nat :: k1 < r && n2 < len2 && off < stride ==>
         Slot(stride, r, n2, k1, off) < |s|
         && s[Slot(stride, r, n2, k1, off)] == Total(StageTerms(y, w, stride, r, len2, k1, n2, off))
  }

  /** The radix-2 butterfly of (n2, off): with a = y1[ai] and b = y1[bi],
      the k1 = 0 output is a + b and the k1 = 1 output is (a - b) * w[wi]
      with wi = (stride * n2) % len_orig. */
  function Butterfly(y: seq<Complex>, w: seq<Complex>, stride: nat, len2: nat, k1: nat, n2: nat, off: nat): Complex
    requires |y| == |w| == stride * (2 * len2) && |y| > 0
    requires n2 < len2 && off < stride
  {
    SourceBound(stride, 2, len2, 0, n2, off);
    SourceBound(stride, 2, len2, 1, n2, off);
    var a := y[Source(stride, len2, 0, n2, off)];
    var b := y[Source(stride, len2, 1, n2, off)];
    if k1 == 0 then Add(a, b) else Mul(Sub(a, b), w[TwiddleIndex(stride, n2, 1, |y|)])
  }

  /** The radix-2 stage is done: both outputs of every butterfly are stored. */
  predicate Radix2Computed(y: seq<Complex>, w: seq<Complex>, s: seq<Complex>, stride: nat, len2: nat)
    requires |y| == |w| == stride * (2 * len2) && |y| > 0
  {
    && |s| == |y|
    && forall k1: nat, n2: nat, off: nat :: k1 < 2 && n2 < len2 && off < stride ==>
         Slot(stride, 2, n2, k1, off) < |s|
         && s[Slot(stride, 2, n2, k1, off)] == Butterfly(y, w, stride, len2, k1, n2, off)
  }

  // The loops of the stages: how far the writes have got.

  /** (N2, OFF) comes before (n2, off) in the order of the two inner loops. */
  predicate Before(N2: nat, OFF: nat, n2: nat, off: nat) {
    N2 < n2 || (N2 == n2 && OFF < off)
  }

  /** The radix-2 loops have stored the butterflies before (n2, off). */
  predicate Radix2Upto(y: seq<Complex>, w: seq<Complex>, s: seq<Complex>, stride: nat, len2: nat, n2: nat, off: nat)
    requires |y| == |w| == stride * (2 * len2) && |y| > 0
  {
    && |s| == |y|
    && forall k1: nat, N2: nat, OFF: nat :: k1 < 2 && N2 < len2 && OFF < stride && Before(N2, OFF, n2, off) ==>
         Slot(stride, 2, N2, k1, OFF) < |s|
         && s[Slot(stride, 2, N2, k1, OFF)] == Butterfly(y, w, stride, len2, k1, N2, OFF)
  }

  /** Index facts behind one step of the radix-2 loops: an earlier
      butterfly's slots are neither of the two being written, and those two
      differ. */
  lemma Radix2SlotsAt(stride: nat, len2: nat, n2: nat, off: nat, k1: nat, N2: nat, OFF: nat)
    requires k1 < 2 && off < stride && OFF < stride
    ensures Slot(stride, 2, n2, 0, off) != Slot(stride, 2, n2, 1, off)
    ensures Before(N2, OFF, n2, off) ==>
              Slot(stride, 2, N2, k1, OFF) != Slot(stride, 2, n2, 0, off)
              && Slot(stride, 2, N2, k1, OFF) != Slot(stride, 2, n2, 1, off)
  {
    if Slot(stride, 2, n2, 0, off) == Slot(stride, 2, n2, 1, off) {
      SlotInjective(stride, 2, n2, 0, off, n2, 1, off);
    }
    if Slot(stride, 2, N2, k1, OFF) == Slot(stride, 2, n2, 0, off) {
      SlotInjective(stride, 2, N2, k1, OFF, n2, 0, off);
    }
    if Slot(stride, 2, N2, k1, OFF) == Slot(stride, 2, n2, 1, off) {
      SlotInjective(stride, 2, N2, k1, OFF, n2, 1, off);
    }
  }

  /** Storing the two outputs of butterfly (n2, off) advances the loops. */
  lemma Radix2Advance(y: seq<Complex>, w: seq<Complex>, s: seq<Complex>, stride: nat, len2: nat, n2: nat, off: nat)
    requires |y| == |w| == stride * (2 * len2) && |y| > 0
    requires Radix2Upto(y, w, s, stride, len2, n2, off) && n2 < len2 && off < stride
    ensures Slot(stride, 2, n2, 0, off) < |s| && Slot(stride, 2, n2, 1, off) < |s|
    ensures Radix2Upto(y, w, s[Slot(stride, 2, n2, 0, off) := Butterfly(y, w, stride, len2, 0, n2, off)]
                             [Slot(stride, 2, n2, 1, off) := Butterfly(y, w, stride, len2, 1, n2, off)],
                       stride, len2, n2, off + 1)
  {
    SlotBound(stride, 2, len2, n2, 0, off);
    SlotBound(stride, 2, len2, n2, 1, off);
    var p0, p1 := Slot(stride, 2, n2, 0, off), Slot(stride, 2, n2, 1, off);
    var b0, b1 := Butterfly(y, w, stride, len2, 0, n2, off), Butterfly(y, w, stride, len2, 1, n2, off);
    var s' := s[p0 := b0][p1 := b1];
    forall k1: nat, N2: nat, OFF: nat | k1 < 2 && N2 < len2 && OFF < stride && Before(N2, OFF, n2, off + 1)
      ensures Slot(stride, 2, N2, k1, OFF) < |s'|
      ensures s'[Slot(stride, 2, N2, k1, OFF)] == Butterfly(y, w, stride, len2, k1, N2, OFF)
    {
      SlotBound(stride, 2, len2, N2, k1, OFF);
      Radix2SlotsAt(stride, len2, n2, off, k1, N2, OFF);
    }
  }

  lemma Radix2NextRow(y: seq<Complex>, w: seq<Complex>, s: seq<Complex>, stride: nat, len2: nat, n2: nat)
    requires |y| == |w| == stride * (2 * len2) && |y| > 0
    requires Radix2Upto(y, w, s, stride, len2, n2, stride)
    ensures Radix2Upto(y, w, s, stride, len2, n2 + 1, 0)
  {}

  lemma Radix2Finished(y: seq<Complex>, w: seq<Complex>, s: seq<Complex>, stride: nat, len2: nat)
    requires |y| == |w| == stride * (2 * len2) && |y| > 0
    requires Radix2Upto(y, w, s, stride, len2, len2, 0)
    ensures Radix2Computed(y, w, s, stride, len2)
  {}

  /** How many of its r terms slot (K1, N2, OFF) holds when the four loops
      of the general stage stand at (k1, n1, n2, off). */
  function Count(r: nat, K1: nat, N2: nat, OFF: nat, k1: nat, n1: nat, n2: nat, off: nat): nat {
    if K1 < k1 then r
    else if K1 > k1 then 0
    else n1 + (if Before(N2, OFF, n2, off) then 1 else 0)
  }

  /** Every slot holds the sum of the terms the loops have added into it. */
  predicate Accumulated(y: seq<Complex>, w: seq<Complex>, s: seq<Complex>, stride: nat, r: nat, len2: nat,
                        k1: nat, n1: nat, n2: nat, off: nat)
    requires |y| == |w| == stride * (r * len2) && |y| > 0
  {
    && |s| == |y|
    && forall K1: nat, N2: nat, OFF: nat :: K1 < r && N2 < len2 && OFF < stride ==>
         SlotHolds(y, w, s, stride, r, len2, K1, N2, OFF, Count(r, K1, N2, OFF, k1, n1, n2, off))
  }

  /** Slot (K1, N2, OFF) holds the sum of the first c of its terms. */
  predicate SlotHolds(y: seq<Complex>, w: seq<Complex>, s: seq<Complex>, stride: nat, r: nat, len2: nat,
                      K1: nat, N2: nat, OFF: nat, c: nat)
    requires |y| == |w| == stride * (r * len2) && |y| > 0
    requires K1 < r && N2 < len2 && OFF < stride
  {
    && Slot(stride, r, N2, K1, OFF) < |s|
    && c <= r
    && s[Slot(stride, r, N2, K1, OFF)] == Total(StageTerms(y, w, stride, r, len2, K1, N2, OFF)[..c])
  }

  /** After `y2.fill(0)` every slot holds the empty sum. */
  lemma AccumulateStart(y: seq<Complex>, w: seq<Complex>, s: seq<Complex>, stride: nat, r: nat, len2: nat)
    requires |y| == |w| == stride * (r * len2) && |y| > 0
    requires |s| == |y| && forall i :: 0 <= i < |s| ==> s[i] == Zero
    ensures Accumulated(y, w, s, stride, r, len2, 0, 0, 0, 0)
  {
    forall K1: nat, N2: nat, OFF: nat | K1 < r && N2 < len2 && OFF < stride
      ensures SlotHolds(y, w, s, stride, r, len2, K1, N2, OFF, Count(r, K1, N2, OFF, 0, 0, 0, 0))
    {
      SlotBound(stride, r, len2, N2, K1, OFF);
      assert StageTerms(y, w, stride, r, len2, K1, N2, OFF)[..Count(r, K1, N2, OFF, 0, 0, 0, 0)] == [];
    }
  }

  lemma TotalPrefixNext(t: seq<Complex>, c: nat)
    requires c < |t|
    ensures Total(t[..c + 1]) == Add(Total(t[..c]), t[c])
  {
    assert t[..c + 1][..c] == t[..c];
  }

  /** Adding term n1 into slot (k1, n2, off) advances the innermost loop. */
  lemma AccumulateStep(y: seq<Complex>, w: seq<Complex>, s: seq<Complex>, stride: nat, r: nat, len2: nat,
                       k1: nat, n1: nat, n2: nat, off: nat)
    requires |y| == |w| == stride * (r * len2) && |y| > 0
    requires Accumulated(y, w, s, stride, r, len2, k1, n1, n2, off)
    requires k1 < r && n1 < r && n2 < len2 && off < stride
    ensures Slot(stride, r, n2, k1, off) < |s|
    ensures Accumulated(y, w,
                        s[Slot(stride, r, n2, k1, off) :=
                            Add(s[Slot(stride, r, n2, k1, off)], StageTerms(y, w, stride, r, len2, k1, n2, off)[n1])],
                        stride, r, len2, k1, n1, n2, off + 1)
  {
    var p := Slot(stride, r, n2, k1, off);
    SlotBound(stride, r, len2, n2, k1, off);
    var t := StageTerms(y, w, stride, r, len2, k1, n2, off);
    var s' := s[p := Add(s[p], t[n1])];
    var off' := off + 1;
    forall K1: nat, N2: nat, OFF: nat | K1 < r && N2 < len2 && OFF < stride
      ensures SlotHolds(y, w, s', stride, r, len2, K1, N2, OFF, Count(r, K1, N2, OFF, k1, n1, n2, off'))
    {
      assert SlotHolds(y, w, s, stride, r, len2, K1, N2, OFF, Count(r, K1, N2, OFF, k1, n1, n2, off));
      SlotBound(stride, r, len2, N2, K1, OFF);
      if K1 == k1 && N2 == n2 && OFF == off {
        TotalPrefixNext(t, n1);
      } else if Slot(stride, r, N2, K1, OFF) == p {
        SlotInjective(stride, r, N2, K1, OFF, n2, k1, off);
      }
    }
  }

  lemma AccumulateNextRow(y: seq<Complex>, w: seq<Complex>, s: seq<Complex>, stride: nat, r: nat, len2: nat,
                          k1: nat, n1: nat, n2: nat)
    requires |y| == |w| == stride * (r * len2) && |y| > 0
    requires Accumulated(y, w, s, stride, r, len2, k1, n1, n2, stride)
    ensures Accumulated(y, w, s, stride, r, len2, k1, n1, n2 + 1, 0)
  {
    var n2' := n2 + 1;
    forall K1: nat, N2: nat, OFF: nat | K1 < r && N2 < len2 && OFF < stride
      ensures SlotHolds(y, w, s, stride, r, len2, K1, N2, OFF, Count(r, K1, N2, OFF, k1, n1, n2', 0))
    {
      assert SlotHolds(y, w, s, stride, r, len2, K1, N2, OFF, Count(r, K1, N2, OFF, k1, n1, n2, stride));
      assert Count(r, K1, N2, OFF, k1, n1, n2, stride) == Count(r, K1, N2, OFF, k1, n1, n2 + 1, 0);
    }
  }

  lemma AccumulateNextTerm(y: seq<Complex>, w: seq<Complex>, s: seq<Complex>, stride: nat, r: nat, len2: nat,
                           k1: nat, n1: nat)
    requires |y| == |w| == stride * (r * len2) && |y| > 0
    requires Accumulated(y, w, s, stride, r, len2, k1, n1, len2, 0)
    ensures Accumulated(y, w, s, stride, r, len2, k1, n1 + 1, 0, 0)
  {
    var n1' := n1 + 1;
    forall K1: nat, N2: nat, OFF: nat | K1 < r && N2 < len2 && OFF < stride
      ensures SlotHolds(y, w, s, stride, r, len2, K1, N2, OFF, Count(r, K1, N2, OFF, k1, n1', 0, 0))
    {
      assert SlotHolds(y, w, s, stride, r, len2, K1, N2, OFF, Count(r, K1, N2, OFF, k1, n1, len2, 0));
      assert Count(r, K1, N2, OFF, k1, n1, len2, 0) == Count(r, K1, N2, OFF, k1, n1 + 1, 0, 0);
    }
  }

  lemma AccumulateNextOutput(y: seq<Complex>, w: seq<Complex>, s: seq<Complex>, stride: nat, r: nat, len2: nat,
                             k1: nat)
    requires |y| == |w| == stride * (r * len2) && |y| > 0
    requires Accumulated(y, w, s, stride, r, len2, k1, r, 0, 0)
    ensures Accumulated(y, w, s, stride, r, len2, k1 + 1, 0, 0, 0)
  {
    var k1' := k1 + 1;
    forall K1: nat, N2: nat, OFF: nat | K1 < r && N2 < len2 && OFF < stride
      ensures SlotHolds(y, w, s, stride, r, len2, K1, N2, OFF, Count(r, K1, N2, OFF, k1', 0, 0, 0))
    {
      assert SlotHolds(y, w, s, stride, r, len2, K1, N2, OFF, Count(r, K1, N2, OFF, k1, r, 0, 0));
      assert Count(r, K1, N2, OFF, k1, r, 0, 0) == Count(r, K1, N2, OFF, k1 + 1, 0, 0, 0);
    }
  }

  lemma AccumulateFinished(y: seq<Complex>, w: seq<Complex>, s: seq<Complex>, stride: nat, r: nat, len2: nat)
    requires |y| == |w| == stride * (r * len2) && |y| > 0
    requires Accumulated(y, w, s, stride, r, len2, r, 0, 0, 0)
    ensures StageComputed(y, w, s, stride, r, len2)
  {
    forall K1: nat, N2: nat, OFF: nat | K1 < r && N2 < len2 && OFF < stride
      ensures Slot(stride, r, N2, K1, OFF) < |s|
      ensures s[Slot(stride, r, N2, K1, OFF)] == Total(StageTerms(y, w, stride, r, len2, K1, N2, OFF))
    {
      assert SlotHolds(y, w, s, stride, r, len2, K1, N2, OFF, Count(r, K1, N2, OFF, r, 0, 0, 0));
      assert StageTerms(y, w, stride, r, len2, K1, N2, OFF)[..r] == StageTerms(y, w, stride, r, len2, K1, N2, OFF);
    }
  }

  /** The step is a decimation in frequency: slot (k1, n2, off) holds sample
      n2 of the k1-th decimated sequence of column off. */
  predicate StageDone(trig: Trig, y: seq<Complex>, s: seq<Complex>, sign: int, stride: nat, r: nat, len2: nat) {
    && |y| == stride * (r * len2) && r > 0
    && |s| == |y|
    && forall k1: nat, n2: nat, off: nat :: k1 < r && n2 < len2 && off < stride ==>
         Slot(stride, r, n2, k1, off) < |s|
         && s[Slot(stride, r, n2, k1, off)] == Decimated(trig, Strided(y, stride, off, r * len2), sign, r, len2, k1)[n2]
  }

  // The stages decimate.

  lemma ScaleExponent(stride: nat, sign: int, n: nat, k1: nat)
    ensures sign * (stride * n * k1) == stride * (sign * n * k1)
  {}

  /** Entry wi of the table is the len-th root of unity raised to
      sign * n * k1, since len_orig = stride * len. */
  lemma TwiddleAt(trig: Trig, sign: int, stride: nat, len: nat, n: nat, k1: nat)
    requires UnitCircle(trig) && stride > 0 && len > 0
    ensures stride * len > 0
    ensures Twiddles(trig, sign, stride * len)[TwiddleIndex(stride, n, k1, stride * len)] == Root(trig, len, sign * n * k1)
  {
    PositiveProduct(stride, len);
    var size := stride * len;
    RootSignedMod(trig, size, sign, stride * n * k1);
    ScaleExponent(stride, sign, n, k1);
    RootScale(trig, stride, len, sign * n * k1);
  }

  lemma StageEntry(trig: Trig, y: seq<Complex>, sign: int, stride: nat, r: nat, len2: nat,
                   k1: nat, n2: nat, off: nat, n1: nat)
    requires UnitCircle(trig) && |y| == stride * (r * len2) && |y| > 0
    requires k1 < r && n2 < len2 && off < stride && n1 < r
    ensures StageTerms(y, Twiddles(trig, sign, |y|), stride, r, len2, k1, n2, off)[n1]
         == DecimatedTerm(trig, Strided(y, stride, off, r * len2), sign, r, len2, k1, n1, n2)
  {
    SourceBound(stride, r, len2, n1, n2, off);
    TwiddleAt(trig, sign, stride, r * len2, Offset(len2, n1, n2), k1);
  }

  /** The general stage computes the decimation in frequency. */
  lemma StageDecimates(trig: Trig, y: seq<Complex>, s: seq<Complex>, sign: int, stride: nat, r: nat, len2: nat)
    requires UnitCircle(trig) && |y| == stride * (r * len2) && |y| > 0
    requires StageComputed(y, Twiddles(trig, sign, |y|), s, stride, r, len2)
    ensures StageDone(trig, y, s, sign, stride, r, len2)
  {
    var w := Twiddles(trig, sign, |y|);
    forall k1: nat, n2: nat, off: nat | k1 < r && n2 < len2 && off < stride
      ensures s[Slot(stride, r, n2, k1, off)] == Decimated(trig, Strided(y, stride, off, r * len2), sign, r, len2, k1)[n2]
    {
      var z := Strided(y, stride, off, r * len2);
      forall n1 | 0 <= n1 < r
        ensures StageTerms(y, w, stride, r, len2, k1, n2, off)[n1] == DecimatedTerm(trig, z, sign, r, len2, k1, n1, n2)
      {
        StageEntry(trig, y, sign, stride, r, len2, k1, n2, off, n1);
      }
      assert StageTerms(y, w, stride, r, len2, k1, n2, off)
          == seq(r, n1 requires 0 <= n1 < r => DecimatedTerm(trig, z, sign, r, len2, k1, n1, n2));
    }
  }

  lemma RootZero(trig: Trig, n: nat, m: int)
    requires UnitCircle(trig) && n > 0 && m == 0
    ensures Root(trig, n, m) == One
  {
    RootOne(trig, n, m);
  }

  /** The twiddle of the second half is the negated twiddle of the first:
      w^(sign * (len2 + n2)) = -w^(sign * n2) when len = 2 * len2. */
  lemma HalfTwiddle(trig: Trig, sign: int, len2: nat, n2: nat)
    requires UnitCircle(trig) && (sign == 1 || sign == -1) && len2 > 0
    ensures Root(trig, 2 * len2, sign * Offset(len2, 1, n2) * 1) == Neg(Root(trig, 2 * len2, sign * n2 * 1))
  {
    var w := Root(trig, 2 * len2, sign * n2 * 1);
    RootAdd(trig, 2 * len2, sign * n2 * 1, sign * len2);
    assert sign * n2 * 1 + sign * len2 == sign * Offset(len2, 1, n2) * 1;
    assert len2 * 2 == 2 * len2 && len2 * sign == sign * len2;
    RootScale(trig, len2, 2, sign);
    HalfTurn(trig, sign);
    MulMinusOneRight(w);
  }

  /** The two decimated terms of radix 2, summed. */
  lemma Radix2Terms(trig: Trig, z: seq<Complex>, sign: int, len2: nat, k1: nat, n2: nat)
    requires |z| == 2 * len2 && n2 < len2
    ensures Decimated(trig, z, sign, 2, len2, k1)[n2]
         == Add(DecimatedTerm(trig, z, sign, 2, len2, k1, 0, n2), DecimatedTerm(trig, z, sign, 2, len2, k1, 1, n2))
  {
    var t0 := DecimatedTerm(trig, z, sign, 2, len2, k1, 0, n2);
    var t1 := DecimatedTerm(trig, z, sign, 2, len2, k1, 1, n2);
    var terms := seq(2, n1 requires 0 <= n1 < 2 => DecimatedTerm(trig, z, sign, 2, len2, k1, n1, n2));
    assert terms == [t0, t1];
    assert terms[..1] == [t0];
    assert [t0][..0] == [];
    assert Decimated(trig, z, sign, 2, len2, k1)[n2] == Total(terms);
    assert Total(terms) == Add(Total([t0]), t1);
    assert Total([t0]) == Add(Total([]), t0);
    AddZero(t0);
  }

  /** The first half of the butterfly: a + b. */
  lemma Radix2Sum(trig: Trig, z: seq<Complex>, sign: int, len2: nat, n2: nat)
    requires UnitCircle(trig) && |z| == 2 * len2 && n2 < len2
    ensures Offset(len2, 1, n2) < |z|
    ensures Decimated(trig, z, sign, 2, len2, 0)[n2] == Add(z[Offset(len2, 0, n2)], z[Offset(len2, 1, n2)])
  {
    Radix2Terms(trig, z, sign, len2, 0, n2);
    RootZero(trig, 2 * len2, sign * Offset(len2, 0, n2) * 0);
    RootZero(trig, 2 * len2, sign * Offset(len2, 1, n2) * 0);
    MulOneRight(z[Offset(len2, 0, n2)]);
    MulOneRight(z[Offset(len2, 1, n2)]);
  }

  /** The second half of the butterfly: (a - b) * w^(sign * n2). */
  lemma Radix2Diff(trig: Trig, z: seq<Complex>, sign: int, len2: nat, n2: nat)
    requires UnitCircle(trig) && (sign == 1 || sign == -1) && |z| == 2 * len2 && n2 < len2
    ensures Offset(len2, 1, n2) < |z|
    ensures Decimated(trig, z, sign, 2, len2, 1)[n2]
         == Mul(Sub(z[Offset(len2, 0, n2)], z[Offset(len2, 1, n2)]), Root(trig, 2 * len2, sign * n2 * 1))
  {
    Radix2Terms(trig, z, sign, len2, 1, n2);
    var a := z[Offset(len2, 0, n2)];
    var b := z[Offset(len2, 1, n2)];
    var w := Root(trig, 2 * len2, sign * n2 * 1);
    assert Offset(len2, 0, n2) == n2;
    HalfTwiddle(trig, sign, len2, n2);
    MulNegRight(b, w);
    MulSubLeft(a, b, w);
  }

  lemma Radix2At(trig: Trig, y: seq<Complex>, s: seq<Complex>, sign: int, stride: nat, len2: nat, k1: nat, n2: nat, off: nat)
    requires UnitCircle(trig) && (sign == 1 || sign == -1)
    requires |y| == stride * (2 * len2) && |y| > 0
    requires Radix2Computed(y, Twiddles(trig, sign, |y|), s, stride, len2)
    requires k1 < 2 && n2 < len2 && off < stride
    ensures Slot(stride, 2, n2, k1, off) < |s|
    ensures s[Slot(stride, 2, n2, k1, off)] == Decimated(trig, Strided(y, stride, off, 2 * len2), sign, 2, len2, k1)[n2]
  {
    SlotBound(stride, 2, len2, n2, k1, off);
    var z := Strided(y, stride, off, 2 * len2);
    SourceBound(stride, 2, len2, 0, n2, off);
    SourceBound(stride, 2, len2, 1, n2, off);
    StridedAt(y, stride, off, 2 * len2, Offset(len2, 0, n2));
    StridedAt(y, stride, off, 2 * len2, Offset(len2, 1, n2));
    if k1 == 0 {
      Radix2Sum(trig, z, sign, len2, n2);
    } else {
      Radix2Diff(trig, z, sign, len2, n2);
      TwiddleAt(trig, sign, stride, 2 * len2, n2, 1);
    }
  }

  /** The radix-2 butterfly is the decimation in frequency of radix 2. */
  lemma Radix2Decimates(trig: Trig, y: seq<Complex>, s: seq<Complex>, sign: int, stride: nat, len2: nat)
    requires UnitCircle(trig) && (sign == 1 || sign == -1)
    requires |y| == stride * (2 * len2) && |y| > 0
    requires Radix2Computed(y, Twiddles(trig, sign, |y|), s, stride, len2)
    ensures StageDone(trig, y, s, sign, stride, 2, len2)
  {
    forall k1: nat, n2: nat, off: nat | k1 < 2 && n2 < len2 && off < stride
      ensures Slot(stride, 2, n2, k1, off) < |s|
      ensures s[Slot(stride, 2, n2, k1, off)] == Decimated(trig, Strided(y, stride, off, 2 * len2), sign, 2, len2, k1)[n2]
    {
      Radix2At(trig, y, s, sign, stride, len2, k1, n2, off);
    }
  }

  /** Bluestein's stage has len2 = 1: its one decimated sample is the
      coefficient itself. */
  lemma DecimatedWhole(trig: Trig, z: seq<Complex>, sign: int, k: nat)
    requires |z| > 0
    ensures Decimated(trig, z, sign, |z|, 1, k)[0] == Spectrum(trig, z, sign, k)
  {
    var len := |z|;
    assert seq(len, n1 requires 0 <= n1 < len => DecimatedTerm(trig, z, sign, len, 1, k, n1, 0))
        == Terms(trig, z, sign, k);
  }

  /** A stage that stores coefficient k of column off at sample
      stride * k + off is a stage of radix len leaving len2 = 1. */
  lemma WholeStage(trig: Trig, y: seq<Complex>, s: seq<Complex>, sign: int, stride: nat, len: nat)
    requires |y| == stride * len && len > 0 && |s| == |y|
    requires forall k: nat, off: nat :: k < len && off < stride ==>
               Offset(stride, k, off) < |s|
               && s[Offset(stride, k, off)] == Spectrum(trig, Strided(y, stride, off, len), sign, k)
    ensures StageDone(trig, y, s, sign, stride, len, 1)
  {
    assert len * 1 == len;
    forall k1: nat, n2: nat, off: nat | k1 < len && n2 < 1 && off < stride
      ensures Slot(stride, len, n2, k1, off) < |s|
      ensures s[Slot(stride, len, n2, k1, off)] == Decimated(trig, Strided(y, stride, off, len * 1), sign, len, 1, k1)[n2]
    {
      assert Offset(len, n2, k1) == k1;
      DecimatedWhole(trig, Strided(y, stride, off, len), sign, k1);
    }
  }

  // The layout the radix loop keeps.

  /** Before a step with stride `stride` and remaining length `len`, column
      off of the buffer y, transformed, is the full transform of x read at
      `stride * kappa + off`. */
  ghost predicate Layout(trig: Trig, x: seq<Complex>, y: seq<Complex>, sign: int, stride: nat, len: nat) {
    && |y| == |x| == stride * len
    && forall off: nat, kappa: nat :: off < stride && kappa < len ==>
         Offset(stride, kappa, off) < |x|
         && Spectrum(trig, Strided(y, stride, off, len), sign, kappa) == Spectrum(trig, x, sign, Offset(stride, kappa, off))
  }

  /** At the start the buffer is a copy of x: one column, stride 1. */
  lemma LayoutStart(trig: Trig, x: seq<Complex>, sign: int)
    ensures Layout(trig, x, x, sign, 1, |x|)
  {
    forall off: nat, kappa: nat | off < 1 && kappa < |x|
      ensures Spectrum(trig, Strided(x, 1, off, |x|), sign, kappa) == Spectrum(trig, x, sign, Offset(1, kappa, off))
    {
      assert Strided(x, 1, off, |x|) == x;
    }
  }

  /** A position of the next layout, split into the decimated column k1
      and the column off it came from. */
  lemma SplitOffset(stride: nat, r: nat, q: nat)
    requires stride > 0 && q < stride * r
    ensures q / stride < r && q % stride < stride && q == Offset(stride, q / stride, q % stride)
  {
    QuotientBound(q, stride, r);
  }

  lemma NextLayoutIndex(stride: nat, r: nat, len2: nat, kappa: nat, k1: nat, off: nat)
    requires kappa < len2 && k1 < r && off < stride
    ensures Offset(r, kappa, k1) < r * len2
    ensures Offset(stride * r, kappa, Offset(stride, k1, off)) == Offset(stride, Offset(r, kappa, k1), off)
  {
    OffsetBound(len2, r, kappa, k1);
  }

  lemma StridedAt(s: seq<Complex>, st: nat, q: nat, len: nat, n: nat)
    requires q < st && |s| == st * len && n < len
    ensures Offset(st, n, q) < |s| && Strided(s, st, q, len)[n] == s[Offset(st, n, q)]
  {
    OffsetBound(len, st, n, q);
  }

  lemma MulAssoc3(a: nat, b: nat, c: nat)
    ensures a * (b * c) == (a * b) * c
  {}

  /** A column of the next layout is a decimated column of this one. */
  lemma DecimatedColumn(trig: Trig, y: seq<Complex>, s: seq<Complex>, sign: int, stride: nat, r: nat, len2: nat,
                        k1: nat, off: nat)
    requires StageDone(trig, y, s, sign, stride, r, len2)
    requires k1 < r && off < stride
    ensures Offset(stride, k1, off) < stride * r && |s| == stride * r * len2
    ensures Strided(s, stride * r, Offset(stride, k1, off), len2)
         == Decimated(trig, Strided(y, stride, off, r * len2), sign, r, len2, k1)
  {
    OffsetBound(r, stride, k1, off);
    MulAssoc3(stride, r, len2);
    var q := Offset(stride, k1, off);
    var column := Strided(s, stride * r, q, len2);
    var d := Decimated(trig, Strided(y, stride, off, r * len2), sign, r, len2, k1);
    forall n2 | 0 <= n2 < len2
      ensures column[n2] == d[n2]
    {
      NextLayoutIndex(stride, r, len2, n2, k1, off);
      StridedAt(s, stride * r, q, len2, n2);
    }
  }

  /** The layout at one column and one coefficient. */
  lemma LayoutAt(trig: Trig, x: seq<Complex>, y: seq<Complex>, sign: int, stride: nat, len: nat, off: nat, kappa: nat)
    requires Layout(trig, x, y, sign, stride, len)
    requires off < stride && kappa < len
    ensures Offset(stride, kappa, off) < |x|
    ensures Spectrum(trig, Strided(y, stride, off, len), sign, kappa) == Spectrum(trig, x, sign, Offset(stride, kappa, off))
  {}

  /** Decimation in frequency, with the coefficient written as an offset. */
  lemma DecimationAt(trig: Trig, z: seq<Complex>, sign: int, r: nat, len2: nat, k1: nat, kappa: nat)
    requires UnitCircle(trig)
    requires |z| == r * len2 && r > 0 && len2 > 0
    ensures Spectrum(trig, z, sign, Offset(r, kappa, k1)) == Spectrum(trig, Decimated(trig, z, sign, r, len2, k1), sign, kappa)
  {
    Decimation(trig, z, sign, r, len2, k1, kappa, Offset(r, kappa, k1));
  }

  /** One coefficient of the next layout. */
  lemma LayoutStepAt(trig: Trig, x: seq<Complex>, y: seq<Complex>, s: seq<Complex>, sign: int,
                     stride: nat, r: nat, len2: nat, k1: nat, off: nat, kappa: nat)
    requires UnitCircle(trig) && stride > 0 && len2 > 0
    requires Layout(trig, x, y, sign, stride, r * len2)
    requires StageDone(trig, y, s, sign, stride, r, len2)
    requires k1 < r && off < stride && kappa < len2
    ensures Offset(stride, k1, off) < stride * r && |s| == stride * r * len2
    ensures Offset(stride * r, kappa, Offset(stride, k1, off)) < |x|
    ensures Spectrum(trig, Strided(s, stride * r, Offset(stride, k1, off), len2), sign, kappa)
         == Spectrum(trig, x, sign, Offset(stride * r, kappa, Offset(stride, k1, off)))
  {
    var z := Strided(y, stride, off, r * len2);
    DecimatedColumn(trig, y, s, sign, stride, r, len2, k1, off);
    DecimationAt(trig, z, sign, r, len2, k1, kappa);
    NextLayoutIndex(stride, r, len2, kappa, k1, off);
    LayoutAt(trig, x, y, sign, stride, r * len2, off, Offset(r, kappa, k1));
  }

  /** One step of the radix loop keeps the layout: with stride' = stride *
      len1 and len' = len2, the buffer after the step is again laid out. */
  lemma LayoutStep(trig: Trig, x: seq<Complex>, y: seq<Complex>, s: seq<Complex>, sign: int,
                   stride: nat, r: nat, len2: nat)
    requires UnitCircle(trig) && stride > 0 && len2 > 0
    requires Layout(trig, x, y, sign, stride, r * len2)
    requires StageDone(trig, y, s, sign, stride, r, len2)
    ensures Layout(trig, x, s, sign, stride * r, len2)
  {
    MulAssoc3(stride, r, len2);
    forall q: nat, kappa: nat | q < stride * r && kappa < len2
      ensures Offset(stride * r, kappa, q) < |x|
      ensures Spectrum(trig, Strided(s, stride * r, q, len2), sign, kappa)
           == Spectrum(trig, x, sign, Offset(stride * r, kappa, q))
    {
      SplitOffset(stride, r, q);
      LayoutStepAt(trig, x, y, s, sign, stride, r, len2, q / stride, q % stride, kappa);
    }
  }

  /** The transform of a single sample is that sample. */
  lemma SpectrumSingle(trig: Trig, v: Complex, sign: int)
    requires UnitCircle(trig)
    ensures Spectrum(trig, [v], sign, 0) == v
  {
    var t := Terms(trig, [v], sign, 0);
    assert t == [Mul(v, Root(trig, 1, sign * 0 * 0))];
    assert t[..0] == [];
    assert Total(t) == Add(Total(t[..0]), t[0]);
    RootZero(trig, 1, sign * 0 * 0);
    MulOneRight(v);
    AddZero(v);
  }

  lemma StridedSingle(y: seq<Complex>, off: nat)
    requires off < |y|
    ensures |y| == |y| * 1 && Strided(y, |y|, off, 1) == [y[off]]
  {
    assert Offset(|y|, 0, off) == off;
  }

  /** When the loop ends with len = 1 the buffer is the transform of x. */
  lemma LayoutEnd(trig: Trig, x: seq<Complex>, y: seq<Complex>, sign: int)
    requires UnitCircle(trig) && Layout(trig, x, y, sign, |x|, 1)
    ensures y == Transform(trig, x, sign)
  {
    forall off | 0 <= off < |x|
      ensures y[off] == Transform(trig, x, sign)[off]
    {
      StridedSingle(y, off);
      SpectrumSingle(trig, y[off], sign);
      assert Offset(|x|, 0, off) == off;
    }
  }

  /** When the loop stops (len < 2) the buffer holds the transform: with
      len = 1 the stride has reached the length, and len = 0 only happens
      for the empty input. */
  lemma FinishLayout(trig: Trig, x: seq<Complex>, y: seq<Complex>, sign: int, stride: nat, len: nat)
    requires UnitCircle(trig) && Layout(trig, x, y, sign, stride, len)
    requires len < 2 && stride * len == |x|
    ensures y == Transform(trig, x, sign)
  {
    if len == 1 {
      assert stride == |x|;
      LayoutEnd(trig, x, y, sign);
    } else {
      assert |x| == 0 && |y| == 0;
    }
  }
}
