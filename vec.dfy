/** The two-dimensional vectors of lib/vec.ts: componentwise arithmetic,
    rotation by quarter turns and the intersection of two lines. */
module Vec {
  /** A `vec2`, the pair [x, y]. */
  datatype Vec2 = Vec2(x: real, y: real)

  /** The quarter-turn counts `0 | 1 | 2 | 3` that rot90 accepts. */
  type Quarter = r: nat | r < 4

  function Add(a: Vec2, b: Vec2): Vec2 {
    Vec2(a.x + b.x, a.y + b.y)
  }

  function Sub(a: Vec2, b: Vec2): Vec2 {
    Vec2(a.x - b.x, a.y - b.y)
  }

  function Mul(a: Vec2, b: Vec2): Vec2 {
    Vec2(a.x * b.x, a.y * b.y)
  }

  function Div(a: Vec2, b: real): Vec2
    requires b != 0.0
  {
    Vec2(a.x / b, a.y / b)
  }

  /** a + s * v, the point at parameter s on the line through a along v. */
  function Along(a: Vec2, v: Vec2, s: real): Vec2 {
    Add(a, Mul(Vec2(s, s), v))
  }

  /** The squared length a0^2 + a1^2. */
  function Norm2(a: Vec2): real {
    a.x * a.x + a.y * a.y
  }

  /** `rot90(a, r)`: entry r of the table of the four quarter turns of a. */
  function Rot90(a: Vec2, r: Quarter): Vec2 {
    [Vec2(a.x, a.y), Vec2(-a.y, a.x), Vec2(-a.x, -a.y), Vec2(a.y, -a.x)][r]
  }

  /** One counter-clockwise quarter turn, (x, y) to (-y, x). */
  function QuarterTurn(a: Vec2): Vec2 {
    Vec2(-a.y, a.x)
  }

  /** n quarter turns in succession. */
  function Turns(a: Vec2, n: nat): Vec2 {
    if n == 0 then a else QuarterTurn(Turns(a, n - 1))
  }

  /** Subtraction undoes addition: sub(add(a, b), b) = a. */
  lemma SubAdd(a: Vec2, b: Vec2)
    ensures Sub(Add(a, b), b) == a
    ensures Add(Sub(a, b), b) == a
  {}

  /** The componentwise operations on the examples of the test suite. */
  lemma ArithmeticExamples()
    ensures Add(Vec2(1.0, 2.0), Vec2(3.0, 4.0)) == Vec2(4.0, 6.0)
    ensures Sub(Vec2(1.0, 2.0), Vec2(3.0, 4.0)) == Vec2(-2.0, -2.0)
    ensures Mul(Vec2(1.0, 2.0), Vec2(3.0, 4.0)) == Vec2(3.0, 8.0)
    ensures Div(Vec2(1.0, 2.0), 3.0) == Vec2(1.0 / 3.0, 2.0 / 3.0)
  {}

  /** Dividing by b and multiplying both components by b again gives a back. */
  lemma DivMul(a: Vec2, b: real)
    requires b != 0.0
    ensures Mul(Div(a, b), Vec2(b, b)) == a
  {}

  /** rot90 is r successive quarter turns. */
  lemma Rot90Turns(a: Vec2, r: Quarter)
    ensures Rot90(a, r) == Turns(a, r)
  {
    assert Turns(a, 1) == QuarterTurn(a);
    assert Turns(a, 2) == QuarterTurn(QuarterTurn(a));
    assert Turns(a, 3) == QuarterTurn(QuarterTurn(QuarterTurn(a)));
  }

  /** Four quarter turns are the identity, so turns only matter modulo 4. */
  lemma {:induction false} TurnsMod4(a: Vec2, n: nat)
    ensures Turns(a, n) == Turns(a, n % 4)
  {
    if n >= 4 {
      TurnsAdd(a, 4, n - 4);
      assert Turns(a, 4) == a by {
        assert Turns(a, 1) == QuarterTurn(a);
        assert Turns(a, 2) == Vec2(-a.x, -a.y);
        assert Turns(a, 3) == Vec2(a.y, -a.x);
      }
      TurnsMod4(a, n - 4);
      assert (n - 4) % 4 == n % 4;
    }
  }

  /** Turning n times and then m times is turning n + m times. */
  lemma {:induction false} TurnsAdd(a: Vec2, n: nat, m: nat)
    ensures Turns(Turns(a, n), m) == Turns(a, n + m)
  {
    if m > 0 {
      TurnsAdd(a, n, m - 1);
    }
  }

  /** rot90 composes by adding quarter turns modulo 4. */
  lemma Rot90Compose(a: Vec2, r: Quarter, q: Quarter)
    ensures Rot90(Rot90(a, r), q) == Rot90(a, (r + q) % 4)
  {
    Rot90Turns(a, r);
    Rot90Turns(Rot90(a, r), q);
    TurnsAdd(a, r, q);
    TurnsMod4(a, r + q);
    Rot90Turns(a, (r + q) % 4);
  }

  /** rot90 by zero is the identity, and the example of the test suite. */
  lemma Rot90Examples(a: Vec2)
    ensures Rot90(a, 0) == a
    ensures Rot90(Vec2(3.0, 4.0), 1) == Vec2(-4.0, 3.0)
  {}

  /** A quarter turn keeps the squared length. */
  lemma Rot90Norm(a: Vec2, r: Quarter)
    ensures Norm2(Rot90(a, r)) == Norm2(a)
  {}

  // intersection.

  /** The determinant av0 bv1 - av1 bv0 of the two directions. */
  function Det(av: Vec2, bv: Vec2): real {
    av.x * bv.y - av.y * bv.x
  }

  /** `intersection(ap, av, bp, bv)`: Cramer's rule for the s in
      ap + s av = bp + t bv. With a zero determinant the division yields
      an infinity or NaN, which is None here. */
  function Intersection(ap: Vec2, av: Vec2, bp: Vec2, bv: Vec2): Option<real> {
    var bpap := Sub(bp, ap);
    var det := Det(av, bv);
    if det == 0.0 then None else Some((bv.y * bpap.x - bv.x * bpap.y) / det)
  }

  datatype Option<T> = None | Some(value: T)

  /** The parameter t of the same crossing on the second line. */
  function Other(ap: Vec2, av: Vec2, bp: Vec2, bv: Vec2): real
    requires Det(av, bv) != 0.0
  {
    var bpap := Sub(bp, ap);
    (av.y * bpap.x - av.x * bpap.y) / Det(av, bv)
  }

  /** det * s = bv1 dx - bv0 dy and det * t = av1 dx - av0 dy solve the
      system componentwise. */
  lemma CramerSolves(avx: real, avy: real, bvx: real, bvy: real, dx: real, dy: real, s: real, t: real)
    requires (avx * bvy - avy * bvx) * s == bvy * dx - bvx * dy
    requires (avx * bvy - avy * bvx) * t == avy * dx - avx * dy
    requires avx * bvy - avy * bvx != 0.0
    ensures s * avx - t * bvx == dx && s * avy - t * bvy == dy
  {
    var det := avx * bvy - avy * bvx;
    assert det * (s * avx - t * bvx) == det * dx;
    assert det * (s * avy - t * bvy) == det * dy;
  }

  /** For non-parallel directions intersection succeeds, and the point at
      parameter s on the first line lies on the second. */
  lemma IntersectionOnBoth(ap: Vec2, av: Vec2, bp: Vec2, bv: Vec2)
    requires Det(av, bv) != 0.0
    ensures Intersection(ap, av, bp, bv).Some?
    ensures Along(ap, av, Intersection(ap, av, bp, bv).value) == Along(bp, bv, Other(ap, av, bp, bv))
  {
    var s := Intersection(ap, av, bp, bv).value;
    var t := Other(ap, av, bp, bv);
    var d := Sub(bp, ap);
    var det := Det(av, bv);
    assert det * s == bv.y * d.x - bv.x * d.y;
    assert det * t == av.y * d.x - av.x * d.y;
    CramerSolves(av.x, av.y, bv.x, bv.y, d.x, d.y, s, t);
  }

  /** Conversely the crossing is unique: any point of the first line that
      lies on the second has the parameter intersection returns. */
  lemma IntersectionUnique(ap: Vec2, av: Vec2, bp: Vec2, bv: Vec2, s: real, t: real)
    requires Det(av, bv) != 0.0
    requires Along(ap, av, s) == Along(bp, bv, t)
    ensures Intersection(ap, av, bp, bv) == Some(s)
  {
    var d := Sub(bp, ap);
    var det := Det(av, bv);
    assert Intersection(ap, av, bp, bv).value == (bv.y * d.x - bv.x * d.y) / det;
    assert s * av.x - t * bv.x == d.x && s * av.y - t * bv.y == d.y;
    assert det * s == bv.y * d.x - bv.x * d.y by {
      assert bv.y * (s * av.x - t * bv.x) - bv.x * (s * av.y - t * bv.y) == det * s;
    }
    assert (bv.y * d.x - bv.x * d.y) / det == s;
  }

  /** Parallel directions have no crossing parameter. */
  lemma IntersectionParallel(ap: Vec2, av: Vec2, bp: Vec2, bv: Vec2)
    requires Det(av, bv) == 0.0
    ensures Intersection(ap, av, bp, bv) == None
  {}

  /** The example of the test suite. */
  lemma IntersectionExample()
    ensures Intersection(Vec2(-1.0, -1.0), Vec2(2.0, 2.0), Vec2(1.0, 0.0), Vec2(-2.0, 2.0)) == Some(0.75)
  {}
}
