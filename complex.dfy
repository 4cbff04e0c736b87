/** Complex numbers over exact reals: the value that one interleaved pair
    (real part, imaginary part) of a sample buffer stands for. */
module Complex {

  datatype Complex = Complex(re: real, im: real)

  const Zero := Complex(0.0, 0.0)
  const One := Complex(1.0, 0.0)
  const MinusOne := Complex(-1.0, 0.0)

  function Add(a: Complex, b: Complex): Complex {
    Complex(a.re + b.re, a.im + b.im)
  }

  function Sub(a: Complex, b: Complex): Complex {
    Complex(a.re - b.re, a.im - b.im)
  }

  function Neg(a: Complex): Complex {
    Complex(-a.re, -a.im)
  }

  /** The product as the transforms spell it out:
      (a0*b0 - a1*b1, a0*b1 + a1*b0). */
  function Mul(a: Complex, b: Complex): Complex {
    Complex(a.re * b.re - a.im * b.im, a.re * b.im + a.im * b.re)
  }

  function Conj(a: Complex): Complex {
    Complex(a.re, -a.im)
  }

  /** Multiplication by a real number. */
  function Scale(k: real, a: Complex): Complex {
    Complex(k * a.re, k * a.im)
  }

  /** Division of both parts by a non-zero real. */
  function DivReal(a: Complex, d: real): Complex
    requires d != 0.0
  {
    Complex(a.re / d, a.im / d)
  }

  /** The squared magnitude re^2 + im^2. */
  function Norm2(a: Complex): real {
    a.re * a.re + a.im * a.im
  }

  lemma AddZero(a: Complex)
    ensures Add(a, Zero) == a && Add(Zero, a) == a
  {}

  lemma AddComm(a: Complex, b: Complex)
    ensures Add(a, b) == Add(b, a)
  {}

  // Ring laws, each stated once so that proofs can cite them instead of
  // leaving the solver to rediscover a polynomial identity.

  lemma MulComm(a: Complex, b: Complex)
    ensures Mul(a, b) == Mul(b, a)
  {}

  lemma MulAssoc(a: Complex, b: Complex, c: Complex)
    ensures Mul(Mul(a, b), c) == Mul(a, Mul(b, c))
  {}

  lemma MulAddLeft(a: Complex, b: Complex, c: Complex)
    ensures Mul(Add(a, b), c) == Add(Mul(a, c), Mul(b, c))
  {}

  lemma MulSubLeft(a: Complex, b: Complex, c: Complex)
    ensures Mul(Sub(a, b), c) == Sub(Mul(a, c), Mul(b, c))
  {}

  lemma MulSubRight(a: Complex, b: Complex, c: Complex)
    ensures Mul(a, Sub(b, c)) == Sub(Mul(a, b), Mul(a, c))
  {}

  lemma MulOneRight(a: Complex)
    ensures Mul(a, One) == a
  {}

  lemma MulZeroRight(a: Complex)
    ensures Mul(a, Zero) == Zero && Mul(Zero, a) == Zero
  {}

  lemma MulMinusOneRight(a: Complex)
    ensures Mul(a, MinusOne) == Neg(a)
  {}

  lemma MulNegRight(a: Complex, b: Complex)
    ensures Mul(a, Neg(b)) == Neg(Mul(a, b))
  {}

  /** Multiplying by a real number written as a complex one scales. */
  lemma MulReal(a: Complex, x: real)
    ensures Mul(a, Complex(x, 0.0)) == Scale(x, a)
  {}

  /** Four factors regrouped in pairs. */
  lemma MulInterchange(a: Complex, b: Complex, c: Complex, d: Complex)
    ensures Mul(Mul(a, b), Mul(c, d)) == Mul(Mul(a, c), Mul(b, d))
  {}

  /** Scaling by a non-zero real and dividing by it undo each other. */
  lemma DivRealScale(a: Complex, d: real)
    requires d != 0.0
    ensures DivReal(Scale(d, a), d) == a && Scale(d, DivReal(a, d)) == a
  {}

  lemma ConjConj(a: Complex)
    ensures Conj(Conj(a)) == a
  {}

  // The sign facts below compare against the named constant NonNeg rather
  // than a literal, which keeps each of them a linear consequence of the
  // monomials they mention.
  const NonNeg: real := 0.0

  lemma CubePositive(x: real, v: real)
    requires x != NonNeg && v > NonNeg
    ensures x * x * v > NonNeg
  {
    if x > NonNeg { assert x * v > NonNeg; } else { assert x * v < NonNeg; }
  }

  lemma CubeNonNegative(x: real, v: real)
    requires v > NonNeg
    ensures x * x * v >= NonNeg
  {
    if x != NonNeg { CubePositive(x, v); }
  }

  /** The two component equations of u*v == 0, multiplied out by u's parts. */
  lemma NormTimes(ur: real, ui: real, vr: real, vi: real)
    requires ur * vr - ui * vi == 0.0
    requires ur * vi + ui * vr == 0.0
    ensures ur * ur * vr + ui * ui * vr == 0.0
    ensures ur * ur * vi + ui * ui * vi == 0.0
  {
    assert ur * ur * vr + ui * ui * vr == ur * (ur * vr - ui * vi) + ui * (ur * vi + ui * vr);
    assert ur * ur * vi + ui * ui * vi == ur * (ur * vi + ui * vr) - ui * (ur * vr - ui * vi);
  }

  lemma CancelPositive(ur: real, ui: real, v: real)
    requires ur != NonNeg || ui != NonNeg
    requires ur * ur * v + ui * ui * v == NonNeg
    ensures v <= NonNeg
  {
    if v > NonNeg {
      if ur != NonNeg {
        CubePositive(ur, v);
        CubeNonNegative(ui, v);
      } else {
        CubePositive(ui, v);
        CubeNonNegative(ur, v);
      }
    }
  }

  /** (ur^2 + ui^2) * v == 0 with (ur, ui) != 0 forces v == 0. */
  lemma Cancel(ur: real, ui: real, v: real)
    requires ur != NonNeg || ui != NonNeg
    requires ur * ur * v + ui * ui * v == NonNeg
    ensures v == NonNeg
  {
    CancelPositive(ur, ui, v);
    assert ur * ur * (-v) + ui * ui * (-v) == NonNeg;
    CancelPositive(ur, ui, -v);
  }

  /** The complex numbers have no zero divisors. */
  lemma NoZeroDivisors(u: Complex, v: Complex)
    requires Mul(u, v) == Zero
    requires u != Zero
    ensures v == Zero
  {
    NormTimes(u.re, u.im, v.re, v.im);
    Cancel(u.re, u.im, v.re);
    Cancel(u.re, u.im, v.im);
  }

  /** The only square roots of one are one and minus one. */
  lemma {:induction false} SquareRootsOfOne(z: Complex)
    requires Mul(z, z) == One
    ensures z == One || z == MinusOne
  {
    var u := Sub(z, One);
    var v := Add(z, One);
    assert Mul(u, v) == Zero;
    if u != Zero {
      NoZeroDivisors(u, v);
    }
  }
}
