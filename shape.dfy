/** The shapes of lib/shape.ts: a shape is a closed polygon given by its
    vertices. Cubic Bézier sampling, the rounded rectangle built from four
    rotated copies of one Bézier corner, and the even-odd point-in-polygon
    test. */
module Shape {
  import opened Vec

  type Polygon = seq<Vec2>

  // bezier.

  /** The curve parameter t = i / (div + 1) of point i. */
  function Param(i: nat, div: nat): real {
    i as real / (div + 1) as real
  }

  lemma ParamLast(div: nat)
    ensures Param(div + 1, div) == 1.0
  {
    var d := (div + 1) as real;
    assert d > 0.0;
    assert Param(div + 1, div) == d / d;
  }

  /** The cubic Bernstein combination
      u^3 p1 + 3 u^2 t p2 + 3 u t^2 p3 + t^3 p4, with u = 1 - t. */
  function BezierPoint(p1: Vec2, p2: Vec2, p3: Vec2, p4: Vec2, t: real): Vec2 {
    var u := 1.0 - t;
    var uu := u * u;
    var uuu := uu * u;
    var tt := t * t;
    var ttt := tt * t;
    Vec2(uuu * p1.x + 3.0 * uu * t * p2.x + 3.0 * u * tt * p3.x + ttt * p4.x,
         uuu * p1.y + 3.0 * uu * t * p2.y + 3.0 * u * tt * p3.y + ttt * p4.y)
  }

  /** `bezier(p1, p2, p3, p4, div)`: div + 2 points of the curve at evenly
      spaced parameters from 0 to 1, starting at p1 and ending at p4. */
  function Bezier(p1: Vec2, p2: Vec2, p3: Vec2, p4: Vec2, div: nat): (r: Polygon)
    ensures |r| == div + 2
    ensures r[0] == p1 && r[|r| - 1] == p4
  {
    assert Param(0, div) == 0.0;
    ParamLast(div);
    seq(div + 2, i requires 0 <= i < div + 2 => BezierPoint(p1, p2, p3, p4, Param(i, div)))
  }

  /** The four Bernstein weights sum to one. */
  lemma BernsteinSum(t: real)
    ensures var u := 1.0 - t;
            u * u * u + 3.0 * (u * u) * t + 3.0 * u * (t * t) + t * t * t == 1.0
  {
    var u := 1.0 - t;
    assert u + t == 1.0;
    assert (u + t) * (u + t) == u * u + 2.0 * u * t + t * t;
    assert (u + t) * (u + t) * (u + t) == u * u * u + 3.0 * (u * u) * t + 3.0 * u * (t * t) + t * t * t;
  }

  /** A combination with weights summing to one of four equal points is
      that point. */
  lemma AffinePoint(p: Vec2, t: real)
    ensures BezierPoint(p, p, p, p, t) == p
  {
    BernsteinSum(t);
    var u := 1.0 - t;
    var w := u * u * u + 3.0 * (u * u) * t + 3.0 * u * (t * t) + t * t * t;
    assert u * u * u * p.x + 3.0 * (u * u) * t * p.x + 3.0 * u * (t * t) * p.x + t * t * t * p.x == w * p.x;
    assert u * u * u * p.y + 3.0 * (u * u) * t * p.y + 3.0 * u * (t * t) * p.y + t * t * t * p.y == w * p.y;
  }

  /** With all four control points equal the curve stays at that point. */
  lemma BezierConstant(p: Vec2, div: nat)
    ensures forall i :: 0 <= i < div + 2 ==> Bezier(p, p, p, p, div)[i] == p
  {
    forall i | 0 <= i < div + 2
      ensures Bezier(p, p, p, p, div)[i] == p
    {
      AffinePoint(p, Param(i, div));
    }
  }

  /** The parameters run from 0 to 1 in increasing order. */
  lemma ParamOrdered(i: nat, j: nat, div: nat)
    requires i < j <= div + 1
    ensures 0.0 <= Param(i, div) < Param(j, div) <= 1.0
  {
    DivOrdered(i as real, j as real, (div + 1) as real);
  }

  lemma DivOrdered(a: real, b: real, d: real)
    requires 0.0 <= a < b <= d
    ensures 0.0 <= a / d < b / d <= 1.0
  {
    var x, y := a / d, b / d;
    assert x * d == a && y * d == b && 1.0 * d == d;
    assert (y - x) * d == b - a;
    assert (1.0 - y) * d == d - b;
  }

  // smooth_rect.

  /** The corner curve of radius r1: from (0, r1) to (r1, 0), with inner
      control points at distance r = r1 (1 - r2) from the axes' origin. */
  function Corner(r1: real, r2: real, div: nat): Polygon {
    var r := r1 * (1.0 - r2);
    Bezier(Vec2(0.0, r1), Vec2(0.0, r), Vec2(r, 0.0), Vec2(r1, 0.0), div)
  }

  /** The i-th corner of the rectangle of centre (cx, cy) and size w x h, in
      the order top left, top right, bottom right, bottom left. */
  function CornerAt(cx: real, cy: real, w: real, h: real, i: Quarter): Vec2 {
    var wHalf := w / 2.0;
    var hHalf := h / 2.0;
    [Vec2(cx - wHalf, cy - hHalf), Vec2(cx + wHalf, cy - hHalf),
     Vec2(cx + wHalf, cy + hHalf), Vec2(cx - wHalf, cy + hHalf)][i]
  }

  /** `corner.map((p) => add(rot90(p, i), o))`. */
  function Place(corner: Polygon, i: Quarter, o: Vec2): (r: Polygon)
    ensures |r| == |corner|
  {
    seq(|corner|, j requires 0 <= j < |corner| => Add(Rot90(corner[j], i), o))
  }

  /** `smooth_rect(cx, cy, w, h, r1, r2, div)`: the rectangle with rounded
      corners, one rotated copy of the corner curve per corner. */
  function SmoothRect(cx: real, cy: real, w: real, h: real, r1: real, r2: real, div: nat): (r: Polygon)
    ensures |r| == 4 * (div + 2)
  {
    var corner := Corner(r1, r2, div);
    Place(corner, 0, CornerAt(cx, cy, w, h, 0)) + Place(corner, 1, CornerAt(cx, cy, w, h, 1))
      + Place(corner, 2, CornerAt(cx, cy, w, h, 2)) + Place(corner, 3, CornerAt(cx, cy, w, h, 3))
  }

  /** Point j of quarter i is point j of the corner curve, turned i quarter
      turns and moved to the i-th corner of the rectangle. */
  lemma SmoothRectQuarter(cx: real, cy: real, w: real, h: real, r1: real, r2: real, div: nat, i: Quarter, j: nat)
    requires j < div + 2
    ensures SmoothRect(cx, cy, w, h, r1, r2, div)[i * (div + 2) + j]
            == Add(Rot90(Corner(r1, r2, div)[j], i), CornerAt(cx, cy, w, h, i))
  {
    var corner := Corner(r1, r2, div);
    var n := div + 2;
    var q0, q1 := Place(corner, 0, CornerAt(cx, cy, w, h, 0)), Place(corner, 1, CornerAt(cx, cy, w, h, 1));
    var q2, q3 := Place(corner, 2, CornerAt(cx, cy, w, h, 2)), Place(corner, 3, CornerAt(cx, cy, w, h, 3));
    assert SmoothRect(cx, cy, w, h, r1, r2, div) == q0 + q1 + q2 + q3;
    ConcatQuarter(q0, q1, q2, q3, n, i, j);
  }

  /** Entry j of part i of four concatenated parts of length n. */
  lemma ConcatQuarter(q0: Polygon, q1: Polygon, q2: Polygon, q3: Polygon, n: nat, i: Quarter, j: nat)
    requires |q0| == |q1| == |q2| == |q3| == n && j < n
    ensures i * n + j < 4 * n
    ensures (q0 + q1 + q2 + q3)[i * n + j] == [q0, q1, q2, q3][i][j]
  {
    if i == 0 {
      assert i * n == 0;
    } else if i == 1 {
      assert i * n == n;
    } else if i == 2 {
      assert i * n == 2 * n;
      assert (q0 + q1 + q2 + q3)[2 * n + j] == q2[j];
    } else {
      assert i * n == 3 * n;
      assert (q0 + q1 + q2 + q3)[3 * n + j] == q3[j];
    }
  }

  /** Consecutive quarters are joined by the straight sides of the
      rectangle: the last point of quarter i and the first of quarter i + 1
      (cyclically) lie on the same side line y = cy -+ h/2 or
      x = cx -+ w/2. */
  lemma SmoothRectSides(cx: real, cy: real, w: real, h: real, r1: real, r2: real, div: nat)
    ensures var s, n := SmoothRect(cx, cy, w, h, r1, r2, div), div + 2;
            s[n - 1].y == s[n].y == cy - h / 2.0
            && s[2 * n - 1].x == s[2 * n].x == cx + w / 2.0
            && s[3 * n - 1].y == s[3 * n].y == cy + h / 2.0
            && s[4 * n - 1].x == s[0].x == cx - w / 2.0
  {
    var n := div + 2;
    var corner := Corner(r1, r2, div);
    assert corner[0] == Vec2(0.0, r1) && corner[n - 1] == Vec2(r1, 0.0);
    SmoothRectQuarter(cx, cy, w, h, r1, r2, div, 0, n - 1);
    SmoothRectQuarter(cx, cy, w, h, r1, r2, div, 1, 0);
    SmoothRectQuarter(cx, cy, w, h, r1, r2, div, 1, n - 1);
    SmoothRectQuarter(cx, cy, w, h, r1, r2, div, 2, 0);
    SmoothRectQuarter(cx, cy, w, h, r1, r2, div, 2, n - 1);
    SmoothRectQuarter(cx, cy, w, h, r1, r2, div, 3, 0);
    SmoothRectQuarter(cx, cy, w, h, r1, r2, div, 3, n - 1);
    SmoothRectQuarter(cx, cy, w, h, r1, r2, div, 0, 0);
    assert 1 * n + 0 == n && 2 * n + 0 == 2 * n && 3 * n + 0 == 3 * n;
    assert 1 * n + (n - 1) == 2 * n - 1 && 2 * n + (n - 1) == 3 * n - 1 && 3 * n + (n - 1) == 4 * n - 1;
  }

  // inside.

  /** The successor of vertex i around the closed polygon. */
  function Next(shape: Polygon, i: nat): nat
    requires i < |shape|
  {
    (i + 1) % |shape|
  }

  /** The point at parameter t between a and b, a (1 - t) + b t. */
  function Lerp(a: real, b: real, t: real): real {
    a * (1.0 - t) + b * t
  }

  /** Whether the edge from vertex i to its successor is counted for p: the
      edge meets the horizontal line through p at a parameter t with
      0 <= t < 1, strictly to the right of p. A horizontal edge makes the
      division in the source non-finite, which fails the comparison with 0;
      here that is an explicit guard. */
  predicate Crosses(shape: Polygon, p: Vec2, i: nat)
    requires i < |shape|
  {
    EdgeCounted(shape[i], shape[Next(shape, i)], p)
  }

  /** The same test for the edge from p1 to p2. */
  predicate EdgeCounted(p1: Vec2, p2: Vec2, p: Vec2) {
    p2.y != p1.y
    && var t := (p.y - p1.y) / (p2.y - p1.y);
       0.0 <= t < 1.0 && p.x < Lerp(p1.x, p2.x, t)
  }

  /** The number of counted edges among the first n. */
  function Crossings(shape: Polygon, p: Vec2, n: nat): (c: nat)
    requires n <= |shape|
    ensures c <= n
  {
    if n == 0 then 0 else Crossings(shape, p, n - 1) + (if Crosses(shape, p, n - 1) then 1 else 0)
  }

  /** `inside(shape, p)`: count the counted edges and return whether the
      count is odd. An empty shape contains nothing. */
  method Inside(shape: Polygon, p: Vec2) returns (b: bool)
    ensures b == (Crossings(shape, p, |shape|) % 2 == 1)
    ensures |shape| == 0 ==> !b
  {
    var count: nat := 0;
    var i: nat := 0;
    while i < |shape|
      invariant i <= |shape| && count == Crossings(shape, p, i)
    {
      var p1, p2 := shape[i], shape[(i + 1) % |shape|];
      assert p1 == shape[i] && p2 == shape[Next(shape, i)];
      var hit := EdgeTest(p1, p2, p);
      if hit {
        count := count + 1;
      }
      i := i + 1;
    }
    b := count % 2 == 1;
  }

  /** The test of one edge in the loop of inside: the ordinate of p is
      reached at t in [0, 1) and there the edge lies to the right of p. */
  method EdgeTest(p1: Vec2, p2: Vec2, p: Vec2) returns (hit: bool)
    ensures hit == EdgeCounted(p1, p2, p)
  {
    hit := false;
    if p2.y != p1.y {
      var t := (p.y - p1.y) / (p2.y - p1.y);
      if 0.0 <= t && t < 1.0 {
        var x := p1.x * (1.0 - t) + p2.x * t;
        assert x == Lerp(p1.x, p2.x, t);
        if p.x < x {
          hit := true;
        }
      }
    }
  }

  /** On a non-horizontal edge the ordinate p.y is reached at exactly one
      parameter. */
  lemma LerpSolve(a: real, b: real, y: real, t: real)
    requires a != b
    ensures Lerp(a, b, t) == y <==> t == (y - a) / (b - a)
  {
    assert Lerp(a, b, t) == a + t * (b - a);
    if t == (y - a) / (b - a) {
      assert t * (b - a) == y - a;
    }
  }

  /** An edge is counted exactly when it is not horizontal and some point of
      it, at a parameter 0 <= t < 1, lies on the horizontal line through p
      strictly to its right; horizontal edges are never counted. */
  lemma CrossesMeaning(shape: Polygon, p: Vec2, i: nat)
    requires i < |shape|
    ensures var p1, p2 := shape[i], shape[Next(shape, i)];
            Crosses(shape, p, i) <==>
              p1.y != p2.y
              && exists t :: 0.0 <= t < 1.0 && Lerp(p1.y, p2.y, t) == p.y && p.x < Lerp(p1.x, p2.x, t)
    ensures shape[i].y == shape[Next(shape, i)].y ==> !Crosses(shape, p, i)
  {
    var p1, p2 := shape[i], shape[Next(shape, i)];
    if p1.y != p2.y {
      var t0 := (p.y - p1.y) / (p2.y - p1.y);
      LerpSolve(p1.y, p2.y, p.y, t0);
      forall t | 0.0 <= t < 1.0 && Lerp(p1.y, p2.y, t) == p.y && p.x < Lerp(p1.x, p2.x, t)
        ensures Crosses(shape, p, i)
      {
        LerpSolve(p1.y, p2.y, p.y, t);
      }
    }
  }

  /** The unit square contains its centre and not a point to its right. */
  lemma InsideExample()
    ensures var square := [Vec2(0.0, 0.0), Vec2(1.0, 0.0), Vec2(1.0, 1.0), Vec2(0.0, 1.0)];
            Crossings(square, Vec2(0.5, 0.5), 4) == 1
            && Crossings(square, Vec2(2.0, 0.5), 4) == 0
  {
    var square := [Vec2(0.0, 0.0), Vec2(1.0, 0.0), Vec2(1.0, 1.0), Vec2(0.0, 1.0)];
    assert Next(square, 1) == 2 && Next(square, 3) == 0;
    assert Crosses(square, Vec2(0.5, 0.5), 1) && !Crosses(square, Vec2(0.5, 0.5), 3);
    assert !Crosses(square, Vec2(2.0, 0.5), 1) && !Crosses(square, Vec2(2.0, 0.5), 3);
  }
}
