/** Cosine and sine enter the model as parameters.  Angles are measured in
    turns: `trig.cos(t)` stands for `Math.cos(2 * Math.PI * t)`, so the
    source's `theta = sign * 2 * Math.PI * n / len` is the angle
    `sign * n / len` here. */
module Trig {
  import opened Complex

  datatype Trig = Trig(cos: real -> real, sin: real -> real)

  /** The point at angle `t` on the circle: cos t + i sin t. */
  function Cis(trig: Trig, t: real): Complex {
    Complex(trig.cos(t), trig.sin(t))
  }

  predicate IsInteger(t: real) {
    t.Floor as real == t
  }

  /** The cosine stays within [-1, 1]. */
  ghost predicate Bounded(trig: Trig) {
    forall t :: -1.0 <= trig.cos(t) <= 1.0
  }

  /** What the proofs need of cosine and sine: angles add under
      multiplication, whole turns and only whole turns give one, and
      conjugation negates the angle. */
  ghost predicate UnitCircle(trig: Trig) {
    && (forall a, b {:trigger Mul(Cis(trig, a), Cis(trig, b))} ::
          Mul(Cis(trig, a), Cis(trig, b)) == Cis(trig, a + b))
    && (forall t {:trigger IsInteger(t)} :: Cis(trig, t) == One <==> IsInteger(t))
    && (forall t {:trigger Conj(Cis(trig, t))} :: Conj(Cis(trig, t)) == Cis(trig, -t))
  }

  /** The m-th power of the principal n-th root of unity, with the sign of
      the transform folded into m. */
  function Root(trig: Trig, n: nat, m: int): Complex
    requires n > 0
  {
    Cis(trig, m as real / n as real)
  }

  lemma CisAdd(trig: Trig, a: real, b: real)
    requires UnitCircle(trig)
    ensures Mul(Cis(trig, a), Cis(trig, b)) == Cis(trig, a + b)
  {}

  lemma CisOne(trig: Trig, t: real)
    requires UnitCircle(trig)
    ensures Cis(trig, t) == One <==> IsInteger(t)
  {}

  lemma DivAdd(a: int, b: int, n: nat)
    requires n > 0
    ensures (a + b) as real / n as real == a as real / n as real + b as real / n as real
  {}

  lemma DivMultiple(m: int, n: nat)
    requires n > 0
    ensures (m * n) as real / n as real == m as real
  {}

  lemma RootAdd(trig: Trig, n: nat, a: int, b: int)
    requires UnitCircle(trig) && n > 0
    ensures Mul(Root(trig, n, a), Root(trig, n, b)) == Root(trig, n, a + b)
  {
    DivAdd(a, b, n);
    CisAdd(trig, a as real / n as real, b as real / n as real);
  }

  /** Whole turns are one. */
  lemma RootMultiple(trig: Trig, n: nat, m: int)
    requires UnitCircle(trig) && n > 0
    ensures Root(trig, n, m * n) == One
  {
    DivMultiple(m, n);
    CisOne(trig, (m * n) as real / n as real);
  }

  lemma MultipleMod(q: int, n: nat)
    requires n > 0
    ensures (q * n) % n == 0
  {
    var m := q * n;
    var d, r := m / n, m % n;
    assert m == d * n + r && 0 <= r < n;
    assert (q - d) * n == r;
    ZeroMultiple(q - d, n, r);
  }

  lemma ZeroMultiple(k: int, n: nat, r: int)
    requires n > 0 && k * n == r && 0 <= r < n
    ensures k == 0
  {
  }

  lemma RatioNotInteger(m: int, n: nat)
    requires n > 0 && m % n != 0
    ensures !IsInteger(m as real / n as real)
  {
    var t := m as real / n as real;
    if IsInteger(t) {
      var q := t.Floor;
      assert q as real == t;
      assert t * n as real == m as real;
      assert (q * n) as real == q as real * n as real;
      assert q * n == m;
      MultipleMod(q, n);
      assert false;
    }
  }

  /** The root is one exactly when m is a multiple of n. */
  lemma RootOne(trig: Trig, n: nat, m: int)
    requires UnitCircle(trig) && n > 0
    ensures Root(trig, n, m) == One <==> m % n == 0
  {
    CisOne(trig, m as real / n as real);
    if m % n == 0 {
      assert m == (m / n) * n;
      RootMultiple(trig, n, m / n);
    } else {
      RatioNotInteger(m, n);
    }
  }

  lemma DivScale(c: nat, n: nat, m: int)
    requires c > 0 && n > 0
    ensures (c * m) as real / (c * n) as real == m as real / n as real
  {
    var x := m as real / n as real;
    assert m as real == x * n as real;
    assert (c * m) as real == x * (c * n) as real;
  }

  /** Scaling numerator and denominator together leaves the root unchanged. */
  lemma RootScale(trig: Trig, c: nat, n: nat, m: int)
    requires c > 0 && n > 0
    ensures c * n > 0 && Root(trig, c * n, c * m) == Root(trig, n, m)
  {
    DivScale(c, n, m);
  }

  lemma RootConj(trig: Trig, n: nat, m: int)
    requires UnitCircle(trig) && n > 0
    ensures Conj(Root(trig, n, m)) == Root(trig, n, -m)
  {
    assert (-m) as real / n as real == -(m as real / n as real);
  }

  /** Half a turn is minus one; this is what lets the radix-2 butterfly
      write b's contribution to an odd output as a subtraction. */
  lemma HalfTurn(trig: Trig, sign: int)
    requires UnitCircle(trig) && (sign == 1 || sign == -1)
    ensures Root(trig, 2, sign) == MinusOne
  {
    var h := Root(trig, 2, sign);
    RootAdd(trig, 2, sign, sign);
    assert sign + sign == (sign as int) * 2;
    RootMultiple(trig, 2, sign);
    SquareRootsOfOne(h);
    RootOne(trig, 2, sign);
  }
}
