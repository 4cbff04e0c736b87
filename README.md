# ps88samples signal and shape core, in Dafny

This project models the numeric core of the ps88samples audio-plugin samples.

- **`lib/fft.ts`** is a mixed-radix fast Fourier transform. Its radix-2 butterfly and its radix-3/5/7 Cooley-Tukey stages work on strided sub-sequences. Lengths with no factor 2, 3, 5 or 7 fall back to Bluestein's chirp-z algorithm. It also has `fftRange`, which evaluates the spectrum at `len` evenly spaced frequencies between `hz_start` and `hz_end` by one Bluestein convolution. Its `window` multiplies by, or divides by, the coefficient `0.54 - 0.46 cos(2πn/N)`.
- **`lib/vec.ts`** holds 2-vector arithmetic, quarter-turn rotation and the line-line intersection parameter.
- **`lib/shape.ts`** holds cubic Bézier sampling, the rounded rectangle built from four rotated Bézier corners, and the even-odd point-in-polygon test.

## How the model is organised

Signals are stored as the source stores them: an `array<real>` whose entries alternate real and imaginary parts. `Buffer.Samples` reads such a buffer as a `seq<Complex>`. Each imperative routine of `fft.ts` is a method over arrays with loop invariants. Its `ensures` ties the output buffer to a specification function:

- `Dft.Fourier` is the transform, with the inverse divided by N.
- `Dft.ReferenceRange` is the range transform.
- `Fft.Windowed` is the window.

The specification functions are related by lemmas to the two reference implementations in `lib/fft.test.ts`:

- `Dft.ReferenceDft` is the `dft` there, with its `(n * k) % len` twiddle index.
- `Dft.ReferenceRange` is the `dftRange` there.

The proofs go through these steps:

- **Radix choice.** `Plan` proves the radix choice correct.
- **Per-stage bookkeeping.** `Stages` proves the stride bookkeeping of each stage. The `Layout` invariant says the spectrum of each strided column equals a slice of the input's spectrum.
- **Bluestein's identity.** `Bluestein` proves the chirp identity, for the transform and for the range transform.
- **Convolution.** `Convolution` proves the circular convolution theorem, and that the mirrored filter layout computes a correlation.
- **Inversion.** `Dft` proves the inversion theorem.

Cosine and sine enter as a parameter `trig: Trig`, with angles measured in turns. The correctness postconditions are stated under `Trig.UnitCircle(trig)`, the algebraic laws of `t ↦ cos 2πt + i sin 2πt`. The window's inverse needs only `Trig.Bounded(trig)`, that is `|cos| ≤ 1`.

## Model

| member | source | states |
|---|---|---|
| Fft.Fft | lib/fft.ts:9-145 | For an even-length buffer, the output is the discrete Fourier transform of the input samples: the forward transform with sign -1, the inverse with sign +1 divided by N. Buffers of at most one sample come back unchanged. The only size bound falls on the length that reaches Bluestein's branch (`Plan.Rough`). |
| Fft.RadixLoop | lib/fft.ts:22-135 | The `while (len >= 2)` loop, with its swapped y1/y2 buffers, leaves the unnormalised transform with the given sign in the buffer it returns. Lengths 0 and 1 leave the input untouched. |
| Fft.Stage | lib/fft.ts:30-134 | One step of the loop picks the radix-2, radix-3/5/7 or Bluestein stage. It carries the Layout invariant from (stride, len1·len2) to (stride·len1, len2). Since the radix is a listed factor or len2 = 1, the `unexpected` branch is never taken. |
| Fft.ComputeTwiddles | lib/fft.ts:13-20 | The twiddle table holds the N N-th roots of unity with the transform's sign. |
| Fft.Radix2Stage | lib/fft.ts:36-61 | Every output slot of the radix-2 stage holds the butterfly of its two inputs: a + b, or (a − b) times the twiddle at (stride·n2) mod N. |
| Fft.Radix2Butterfly | lib/fft.ts:41-60 | One butterfly writes its two slots and keeps all outputs written before it. |
| Fft.GeneralStage | lib/fft.ts:62-81 | After zero-filling, every output slot of a radix-3/5/7 stage holds the sum, over n1, of input times twiddle at (stride·n·k1) mod N. |
| Fft.AccumulateColumn | lib/fft.ts:71-78 | The innermost offset loop adds one term to each of the stride slots of the current output column. |
| Stages.StageDecimates | lib/fft.ts:62-81 | What the general stage computes is a decimation-in-frequency step. Each strided output column is the twiddled, decimated input column. |
| Stages.Radix2Decimates | lib/fft.ts:36-61 | The same holds for the expanded radix-2 butterfly, using w^(N/2) = −1. |
| Stages.LayoutStep | lib/fft.ts:131-134 | A decimation step turns the Layout invariant at (stride, r·len2) into the one at (stride·r, len2). This is the `stride *= len1; len = len2` update. |
| Stages.FinishLayout | lib/fft.ts:30 | When the loop exits with len < 2, the buffer is the transform of the original input. |
| Dft.Decimation | lib/fft.ts:65-70 | The transform of z at index k = r·k2 + k1 equals the transform of length len2 of the decimated, twiddled sequence at k2. This is the index split `k = len1*n2 + k1`, `n = len2*n1 + n2`. |
| Fft.BluesteinStage | lib/fft.ts:82-126 | For each offset, the Bluestein branch writes the transform of that strided column into y2. |
| Fft.ChirpTable | lib/fft.ts:84-89 | The chirp table holds the roots with angle sign·n²/(2·len). |
| Fft.ChirpInput | lib/fft.ts:92-99 | Buffer a is the strided column times the chirp, zero-padded to len_ceil. |
| Fft.ChirpBuffer | lib/fft.ts:100-108 | Buffer b is the conjugate chirp at the start, mirrored at len_ceil − n for n ≥ 1, and zero elsewhere. |
| Fft.Convolve | lib/fft.ts:109-118 | The forward transforms, pointwise product and inverse transform yield the circular convolution of a and b. |
| Fft.PointwiseProduct | lib/fft.ts:111-117 | The output sample n is a_n · b_n. |
| Fft.BluesteinColumn | lib/fft.ts:91-126 | For one offset, slot k of that column of y2 receives coefficient k of the transform of the strided input column `y1[stride·n + offset]`. Every other column of y2 keeps its value. |
| Fft.ChirpInputSample | lib/fft.ts:93-98 | One pass of the loop sets sample n of a to the strided input sample times chirp entry n, and changes no other sample. |
| Fft.Fill | lib/fft.ts:64 | `y2.fill(0)`: every entry of the buffer is 0. |
| Fft.Demodulate | lib/fft.ts:119-125 | Column slot k receives y_k · conj(b_k), and the other columns of y2 keep their values. |
| Bluestein.BluesteinIdentity | lib/fft.ts:82-126 | The demodulated circular convolution of the chirped input with the mirrored chirp filter equals the transform at every k < len, for every power-of-two pad ≥ 2·len − 1. |
| Bluestein.ChirpFilterMirrors | lib/fft.ts:100-108 | The filter buffer is the conjugate chirp laid out symmetrically around index 0 modulo len_ceil. |
| Bluestein.ChirpedInputSupport | lib/fft.ts:92-99 | The chirped input is zero from index len on. |
| Convolution.ConvolutionTheorem | lib/fft.ts:109-118 | The inverse transform of the product of two transforms is the circular convolution. |
| Convolution.MirroredConvolution | lib/fft.ts:100-118 | Convolving a signal supported below p with a mirrored filter gives, at k < q, the correlation sum over m < p of a_m · g_{|k−m|}. |
| Fft.Normalise | lib/fft.ts:137-142 | On the inverse, every entry is divided by N. |
| Fft.FftRange | lib/fft.ts:156-208 | The output has 2·len entries, so len = 0 gives an empty buffer. For N ≥ 1 samples and len ≥ 2 outputs, output k is the sum of x_n · e^(−2πi·(hz_start + k·hz_step)·n/N). This is the value `dftRange` computes. |
| Fft.RangeBuffer | lib/fft.ts:167-175 | Buffer a is x_n times the input chirp, with angle −(hz_start + hz_step·n/2)·n/N, zero-padded to len_ceil. |
| Fft.RangeFilterBuffer | lib/fft.ts:176-190 | Buffer b holds the conjugate range chirp at n < len and its mirror at len_ceil − n for 1 ≤ n < N. Both loops are modelled with their own bounds. |
| Fft.DemodulateInPlace | lib/fft.ts:201-206 | Each kept sample k is multiplied by conj(b_k). |
| Fft.Slice | lib/fft.ts:200 | The result is the first 2·len entries. |
| Fft.RangeOutput | lib/fft.ts:191-206 | Demodulating the convolution of the two range buffers gives exactly `ReferenceRange`. |
| Bluestein.RangeIdentity | lib/fft.ts:165-206 | The same holds entry by entry, using hz·n = (hz_start + k·step)·n = chirp(n) + chirp(k) − chirp(k−n). |
| Bluestein.RangeFilterMirrors | lib/fft.ts:176-190 | The range filter is the conjugate range chirp mirrored around 0 up to max(N, len). |
| Bluestein.RangeInputSupport | lib/fft.ts:167-175 | The range input is zero from index N on. |
| Pow2.NextPow2 | lib/fft.ts:90 | The padded length is a power of two. Pow2.NextPow2Bounds states that it is the least one that is ≥ m. |
| Pow2.NextPow2Bounds | lib/fft.ts:90 | `1 << ceil(log2 m)` is the least power of two ≥ m: it is at least m, and half of it is below m. |
| Plan.FindDivisor | lib/fft.ts:32 | `factors.find((x) => len % x === 0)`: the index it stops at is at most the list's length, and the list's length means no entry divides. |
| Plan.FindDivisorFirst | lib/fft.ts:32 | The index found holds an entry that divides len, and no earlier entry divides len. |
| Plan.Radix | lib/fft.ts:32 | `find(...) ?? len`. Its meaning is stated by Plan.RadixChoice and Plan.RadixDivides. |
| Plan.RadixChoice | lib/fft.ts:29-32 | The radix is the first of 2, 3, 5, 7 that divides len; when none does, it is len itself. |
| Plan.RadixDivides | lib/fft.ts:32-33 | For len ≥ 2 the radix divides len and lies in [2, len]. So len2 = len / len1 is whole, and 1 ≤ len2 < len, which makes the loop terminate. |
| Plan.RadixLast | lib/fft.ts:82 | A radix outside the factor list leaves len2 = 1. |
| Plan.RadixCases | lib/fft.ts:36-129 | Every step is radix-2, radix-3/5/7 or Bluestein: the `throw` is unreachable. |
| Plan.BluesteinLength | lib/fft.ts:82-126 | The Bluestein branch is reached only for lengths of at least 11. |
| Plan.Rough | lib/fft.ts:30-134 | The length the loop leaves for Bluestein's branch: len with the loop's factors 2, 3, 5 and 7 divided out, in its order. It is at most len. |
| Plan.RoughStep | lib/fft.ts:32-33 | A step with a listed radix keeps the rough part unchanged. The Bluestein step leaves length 1, whose rough part is no larger. |
| Plan.RoughLast | lib/fft.ts:82-90 | When the loop reaches Bluestein's branch, the remaining length is the rough part. So the shift `1 << ceil(log2(2·len − 1))` is bounded by the rough part of the input length. |
| Plan.Pow2Rough | lib/fft.ts:109-118 | A power of two has rough part 1, so the padded transforms of Bluestein's branch are always within bounds. |
| Plan.Pow2Radix | lib/fft.ts:36-61 | A power-of-two length always takes the radix-2 branch, so the padded recursive calls never recurse into Bluestein. |
| Dft.ReferenceDft | lib/fft.test.ts:5-34 | The test's `dft` gives one coefficient per input sample. It equals `Dft.Fourier` by Dft.ReferenceIsFourier. |
| Dft.ReferenceRange | lib/fft.test.ts:37-59 | The test's `dftRange` gives len coefficients, coefficient k at frequency hz_start + k·hz_step. Fft.FftRange is proved equal to it. |
| Dft.ReferenceIsFourier | lib/fft.test.ts:5-34 | The test's `dft`, with twiddle index (n·k) mod len and the inverse divided by len, equals the transform that `fft` is proved to compute. |
| Dft.Inversion | lib/fft.test.ts:127-132 | The inverse transform undoes the forward transform, which is the `fft(fft(x, false), true)` round trip the test checks. |
| Dft.Orthogonality | lib/fft.ts:137-142 | The sum of the d-th powers of the len-th roots is len when len divides d and 0 otherwise. This is why normalising by N inverts. |
| Buffer.SamplesInterleave | lib/fft.ts:5-7 | Writing complex samples into an interleaved buffer and reading them back gives the samples. |
| Buffer.InterleaveSamples | lib/fft.ts:5-7 | An even-length interleaved buffer is recovered from its samples. |
| Buffer.SamplesPut | lib/fft.ts:56-59 | Writing the pair (2k, 2k+1) changes exactly sample k. |
| Fft.Window | lib/fft.ts:217-232 | Sample n is multiplied by the coefficient 0.54 − 0.46·cos(2πn/N), or divided by it when `inverse` is set. The input is copied, not changed. |
| Fft.Coefficient | lib/fft.ts:222 | The coefficient 0.54 − 0.46·cos(2πn/len) of sample n. Its range is stated by Fft.CoefficientBounds. |
| Fft.Windowed | lib/fft.ts:221-230 | The windowed signal has one sample per input sample. Its samples are given by Fft.WindowedAt, and its round trip by Fft.WindowRoundTrip. |
| Fft.WindowedAt | lib/fft.ts:222-229 | Sample n of the windowed signal is z_n multiplied by its coefficient, or, for the inverse, divided by it. |
| Fft.WindowSample | lib/fft.ts:222-229 | One pass of the loop replaces sample n by sample n of the windowed signal, and changes no other sample. |
| Fft.CoefficientBounds | lib/fft.ts:222 | The window coefficient lies in [0.08, 1]. In particular it is never zero, so the inverse is defined. |
| Fft.WindowRoundTrip | lib/fft.ts:217-232 | The windowed and the inverse-windowed signal undo each other, in both orders. |
| Vec.Add | lib/vec.ts:3 | The componentwise sum. Vec.Sub undoes it (Vec.SubAdd). |
| Vec.Sub | lib/vec.ts:4 | The componentwise difference. Vec.Add undoes it (Vec.SubAdd). |
| Vec.Mul | lib/vec.ts:5 | The componentwise product. Multiplying by (b, b) undoes Vec.Div (Vec.DivMul). |
| Vec.Div | lib/vec.ts:6 | Division of both components by b, which must be non-zero. Vec.DivMul states the inverse. |
| Vec.Rot90 | lib/vec.ts:16-24 | The table of the four quarter turns. Its meaning is stated by Vec.Rot90Turns, Vec.Rot90Compose and Vec.Rot90Norm. |
| Vec.Intersection | lib/vec.ts:26-40 | Cramer's rule for s in ap + s·av = bp + t·bv, and `None` for a zero determinant. Correctness and uniqueness are stated by Vec.IntersectionOnBoth and Vec.IntersectionUnique. |
| Vec.ArithmeticExamples | lib/vec.test.ts:6-9 | add, sub, mul and div give the tested values. |
| Vec.SubAdd | lib/vec.ts:3-4 | sub undoes add, and add undoes sub. |
| Vec.DivMul | lib/vec.ts:5-6 | Dividing by b ≠ 0 and then multiplying componentwise by (b, b) gives the original vector. |
| Vec.Rot90Turns | lib/vec.ts:16-24 | Table entry r is r successive quarter turns counter-clockwise, (x, y) ↦ (−y, x). |
| Vec.TurnsMod4 | lib/vec.ts:16-24 | Four quarter turns are the identity, so n turns equal n mod 4 turns. |
| Vec.Rot90Compose | lib/vec.ts:16-24 | rot90 by r and then by q equals rot90 by (r + q) mod 4. |
| Vec.Rot90Norm | lib/vec.ts:16-24 | rot90 preserves the squared length. |
| Vec.Rot90Examples | lib/vec.test.ts:14 | rot90 by 0 is the identity, and rot90([3, 4], 1) = [−4, 3]. |
| Vec.IntersectionOnBoth | lib/vec.ts:26-40 | When the directions are not parallel, the returned s puts ap + s·av on line b. |
| Vec.IntersectionUnique | lib/vec.ts:26-40 | Any s with ap + s·av on line b is the returned value. |
| Vec.IntersectionParallel | lib/vec.ts:37-38 | Parallel directions (det = 0) have no intersection parameter. |
| Vec.IntersectionExample | lib/vec.test.ts:16-18 | The tested lines meet at s = 3/4. |
| Shape.BezierPoint | lib/shape.ts:45-52 | The Bernstein combination u³p1 + 3u²t·p2 + 3ut²·p3 + t³p4 with u = 1 − t. Its weights sum to one (Shape.BezierConstant). |
| Shape.Bezier | lib/shape.ts:35-55 | The sampled curve has div + 2 points, starting at p1 and ending at p4. |
| Shape.ParamOrdered | lib/shape.ts:44 | The parameters t = i / (div + 1) strictly increase from 0 to 1. |
| Shape.BezierConstant | lib/shape.ts:43-53 | The Bernstein weights sum to one: a curve whose four control points coincide is constant. |
| Shape.Corner | lib/shape.ts:17-18 | The corner curve of radius r1, from (0, r1) to (r1, 0), with inner control points at r = r1·(1 − r2). |
| Shape.CornerAt | lib/shape.ts:15-23 | The four offsets (cx ∓ w/2, cy ∓ h/2), in the order of the four `map` calls. |
| Shape.Place | lib/shape.ts:20-23 | One `corner.map(...)`: the placed corner has as many points as the corner. Its points are given by Shape.SmoothRectQuarter. |
| Shape.SmoothRect | lib/shape.ts:5-25 | The rounded rectangle has 4·(div + 2) points. |
| Shape.SmoothRectQuarter | lib/shape.ts:17-24 | Point j of quarter i is corner point j, turned by i quarters and moved to corner i of the rectangle. |
| Shape.SmoothRectSides | lib/shape.ts:15-24 | The last point of each corner and the first point of the next lie on the same side of the w × h rectangle centred on (cx, cy). The straight sides are axis-aligned at cy ∓ h/2 and cx ± w/2. |
| Shape.EdgeCounted | lib/shape.ts:61-66 | The edge from p1 to p2 counts for p when t = (p.y − p1.y)/(p2.y − p1.y) lies in [0, 1) and p.x is left of the interpolated x. A horizontal edge never counts. Its meaning is stated by Shape.CrossesMeaning. |
| Shape.Crosses | lib/shape.ts:60-66 | Edge i runs from vertex i to vertex (i + 1) mod n, and is tested by Shape.EdgeCounted. |
| Shape.Crossings | lib/shape.ts:57-68 | The crossing count over the first n edges is at most n. |
| Shape.CrossesMeaning | lib/shape.ts:60-66 | Edge i is counted exactly when it is not horizontal and it meets the horizontal through p at some t in [0, 1) strictly to the right of p. |
| Shape.EdgeTest | lib/shape.ts:60-66 | The per-edge test, as written with t = (p.y − p1.y)/(p2.y − p1.y) and the interpolated x, decides exactly that predicate. |
| Shape.Inside | lib/shape.ts:57-70 | The loop returns true exactly when the number of counted edges is odd. The empty shape is never inside. |
| Shape.InsideExample | lib/shape.ts:57-70 | The centre of the unit square is inside and a point to its right is not. |

## Left out

- Floating point: Float32Array storage and IEEE rounding are replaced by exact real arithmetic. Results hold for the exact values, not for the rounded ones.
- Trigonometry: `Math.cos` and `Math.sin` are not computed. They enter as the `trig` parameter, with angles in turns. The transform results are proved for every `trig` satisfying `UnitCircle`.
- `Math.log2` together with `1 <<` becomes `Pow2.NextPow2`. JavaScript's 32-bit shift is represented by requiring the padded length to stay at most 2^30 (`Pow2.MaxPadded`).
- Fft.Fft, Fft.FftRange, Fft.Window: each requires an even buffer length. The source only checks this with `console.assert` (lib/fft.ts:10, :163, :218) and then reads a fractional length.
- Fft.Fft: requires 2·Rough(N) − 1 ≤ 2^30. Rough(N) is N with the loop's factors 2, 3, 5 and 7 divided out, which is the only length that reaches the shift `1 << ceil(log2(2·len − 1))`. The excluded inputs are exactly those where that shift exceeds 2^30 (bit 31 or beyond in JavaScript's 32-bit shift). Powers of two, and every N whose other prime factors are small, are admitted at any size.
- Fft.FftRange: for len ≥ 1, requires N ≥ 1 and len ≥ 2. For N = 0 the source divides by zero in θ at n = 0, and for len = 1 it divides by len − 1 = 0 in `hz_step`. Both produce NaN, which the model does not represent. len = 0 is admitted for every N, and gives the empty buffer that `slice(0, 0)` returns.
- Fft.FftRange: requires N + len − 1 ≤ 2^30, as for `fft`.
- Fft.Window: the inverse requires `Bounded(trig)`, so that the coefficient is provably non-zero.
- Vec.Div: requires b ≠ 0. The source returns ±Infinity or NaN there.
- Vec.Intersection: returns `None` when det = 0, where the source returns ±Infinity or NaN.
- Shape.Inside: the source computes t = ±Infinity or NaN for a horizontal edge, which then fails `0 <= t && t < 1`. The model tests `p1.y == p2.y` explicitly, with the same outcome.
- Shape.SmoothRect: `r2` and `div` are parameters without defaults. The default `r2 = (√2 − 1)·4/3` needs a square root, and the default `div = 6` is a call-site convenience. `div` is a `nat`, which is what the source's `console.assert(div >= 0)` expects.
- Shape.Bezier: `div` is a `nat`, for the same reason.
- `vec.len`, `vec.norm`, `vec.rot`, `vec.getRot` and `shape.circle` are not part of this model. They need square roots, arbitrary-angle trigonometry or `atan2`.
- The source's comment calls the window a Hanning window. Its coefficients 0.54 and 0.46 are those of the Hamming window, and the model uses the coefficients as written.
- The numerical tests in `lib/fft.test.ts` compare against the reference DFT within a tolerance. The model states equality with the reference functions instead.
