/** Extended-coordinate points of edwards25519 and their addition law
    (RFC 8032, section 5.1.4). */
module EdwardsPoints {
  import opened PrimeField
  import opened EdwardsField

  /** x = X/Z, y = Y/Z and x*y = T/Z. */
  datatype Point = Point(x: int, y: int, z: int, t: int)

  const IDENTITY := Point(0, 1, 1, 0)

  function PointAdd(cv: Curve, left: Point, right: Point): Point {
    Combine(cv,
      ((left.y - left.x) * (right.y - right.x)) % cv.p,
      ((left.y + left.x) * (right.y + right.x)) % cv.p,
      (2 * cv.d * left.t * right.t) % cv.p,
      (2 * left.z * right.z) % cv.p)
  }

  /** The second half of the addition, from the products A, B, C and D. */
  function Combine(cv: Curve, a: int, b: int, c: int, d: int): Point {
    var e := (b - a) % cv.p;
    var f := (d - c) % cv.p;
    var g := (d + c) % cv.p;
    var h := (b + a) % cv.p;
    Point((e * f) % cv.p, (g * h) % cv.p, (f * g) % cv.p, (e * h) % cv.p)
  }

  predicate PointEqual(cv: Curve, left: Point, right: Point) {
    && (left.x * right.z - right.x * left.z) % cv.p == 0
    && (left.y * right.z - right.y * left.z) % cv.p == 0
  }

  /** XY = ZT and -X^2 + Y^2 = Z^2 + D T^2. */
  ghost predicate OnCurve(cv: Curve, p: Point) {
    && Eq(cv, p.x * p.y, p.z * p.t)
    && Eq(cv, p.y * p.y - p.x * p.x, p.z * p.z + cv.d * (p.t * p.t))
  }

  /** A point of the curve with an invertible Z. */
  ghost predicate Valid(cv: Curve, p: Point) {
    OnCurve(cv, p) && !Nil(cv, p.z)
  }

  // ----- the four products of the addition law, without their factors of two

  function SumE(cv: Curve, p: Point, q: Point): int { p.x * q.y + p.y * q.x }
  function SumH(cv: Curve, p: Point, q: Point): int { p.y * q.y + p.x * q.x }
  function SumF(cv: Curve, p: Point, q: Point): int { p.z * q.z - cv.d * (p.t * q.t) }
  function SumG(cv: Curve, p: Point, q: Point): int { p.z * q.z + cv.d * (p.t * q.t) }

  lemma Reduced(cv: Curve, v: int, w: int)
    requires Eq(cv, v, w)
    ensures Eq(cv, v % cv.p, w)
  {
    CongMod(v, cv.p);
    CongTrans(v % cv.p, v, w, cv.p);
  }

  lemma ReducedProduct(cv: Curve, u: int, u': int, v: int, v': int)
    requires Eq(cv, u, 2 * u') && Eq(cv, v, 2 * v')
    ensures Eq(cv, (u * v) % cv.p, 4 * (u' * v'))
  {
    CongMul(u, 2 * u', v, 2 * v', cv.p);
    MulCross(2, u', 2, v');
    Reduced(cv, u * v, 4 * (u' * v'));
  }

  /** The result of PointAdd in terms of the four products. */
  lemma AddCoordinates(cv: Curve, p: Point, q: Point)
    ensures var e, f, g, h := SumE(cv, p, q), SumF(cv, p, q), SumG(cv, p, q), SumH(cv, p, q);
            var r := PointAdd(cv, p, q);
            && Eq(cv, r.x, 4 * (e * f)) && Eq(cv, r.y, 4 * (g * h))
            && Eq(cv, r.z, 4 * (f * g)) && Eq(cv, r.t, 4 * (e * h))
  {
    var a0, b0 := (p.y - p.x) * (q.y - q.x), (p.y + p.x) * (q.y + q.x);
    var c0, d0 := 2 * cv.d * p.t * q.t, 2 * p.z * q.z;
    var a, b, c, d := a0 % cv.p, b0 % cv.p, c0 % cv.p, d0 % cv.p;
    CongMod(a0, cv.p);
    CongMod(b0, cv.p);
    CongMod(c0, cv.p);
    CongMod(d0, cv.p);
    CongAdd(b, b0, a, a0, cv.p);
    CongAdd(d, d0, c, c0, cv.p);
    SumIdentities(cv, p, q);
    Reduced(cv, b - a, 2 * SumE(cv, p, q));
    Reduced(cv, b + a, 2 * SumH(cv, p, q));
    Reduced(cv, d - c, 2 * SumF(cv, p, q));
    Reduced(cv, d + c, 2 * SumG(cv, p, q));
    var e, f, g, h := (b - a) % cv.p, (d - c) % cv.p, (d + c) % cv.p, (b + a) % cv.p;
    ReducedProduct(cv, e, SumE(cv, p, q), f, SumF(cv, p, q));
    ReducedProduct(cv, g, SumG(cv, p, q), h, SumH(cv, p, q));
    ReducedProduct(cv, f, SumF(cv, p, q), g, SumG(cv, p, q));
    ReducedProduct(cv, e, SumE(cv, p, q), h, SumH(cv, p, q));
  }

  lemma SumIdentities(cv: Curve, p: Point, q: Point)
    ensures (p.y + p.x) * (q.y + q.x) - (p.y - p.x) * (q.y - q.x) == 2 * SumE(cv, p, q)
    ensures (p.y + p.x) * (q.y + q.x) + (p.y - p.x) * (q.y - q.x) == 2 * SumH(cv, p, q)
    ensures 2 * p.z * q.z - 2 * cv.d * p.t * q.t == 2 * SumF(cv, p, q)
    ensures 2 * p.z * q.z + 2 * cv.d * p.t * q.t == 2 * SumG(cv, p, q)
  {
    var d := cv.d;
    MulSwap(d, p.t, q.t);
  }

  lemma MulCommutes(a: int, b: int, d: int)
    ensures a * b == b * a && 2 * a * b == 2 * b * a && 2 * d * a * b == 2 * d * b * a
  {
    assert (2 * d) * a * b == (2 * d) * (a * b);
    assert (2 * d) * b * a == (2 * d) * (b * a);
  }

  lemma AddCommutes(cv: Curve, p: Point, q: Point)
    ensures PointAdd(cv, p, q) == PointAdd(cv, q, p)
  {
    MulCommutes(p.y - p.x, q.y - q.x, 0);
    MulCommutes(p.y + p.x, q.y + q.x, 0);
    MulCommutes(p.t, q.t, cv.d);
    MulCommutes(p.z, q.z, 0);
  }

  // ----- closure: the sum of two points is on the curve

  /** What a point of the curve says about A = Z^2, B = D T^2, a = Y^2 - X^2, q = XY. */
  lemma PointFacts(cv: Curve, p: Point)
    requires OnCurve(cv, p)
    ensures var A, B := p.z * p.z, cv.d * (p.t * p.t);
            var a, q := p.y * p.y - p.x * p.x, p.x * p.y;
            Eq(cv, a, A + B) && Eq(cv, cv.d * (q * q), A * B)
  {
    var d, w, q := cv.d, p.z * p.t, p.x * p.y;
    Nil1(cv, q - w, d * (q + w), d * (q * q) - d * (w * w)) by {
      DiffSquares(q, w, d);
    }
    MulCross(p.z, p.t, p.z, p.t);
    MulSwap(d, p.z * p.z, p.t * p.t);
  }

  lemma DiffSquares(q: int, w: int, d: int)
    ensures (d * (q + w)) * (q - w) == d * (q * q) - d * (w * w)
  {
    assert (q + w) * (q - w) == q * q - w * w;
    MulSwap(d, q + w, q - w);
    assert d * (q * q - w * w) == d * (q * q) - d * (w * w);
  }

  /** The square identity (x^2 + y^2)^2 = (y^2 - x^2)^2 + 4 (xy)^2. */
  lemma SumOfSquares(x: int, y: int)
    ensures var s, a, q := x * x + y * y, y * y - x * x, x * y;
            s * s == a * a + 4 * (q * q)
  {
    var u, v := x * x, y * y;
    MulCross(x, y, x, y);
    assert (u + v) * (u + v) == (v - u) * (v - u) + 4 * (u * v);
  }

  lemma SquaresEH(x1: int, y1: int, x2: int, y2: int)
    ensures var e, h := x1 * y2 + y1 * x2, y1 * y2 + x1 * x2;
            var w := (x1 * x1 + y1 * y1) * (x2 * x2 + y2 * y2) + 4 * ((x1 * y1) * (x2 * y2));
            var v := (y1 * y1 - x1 * x1) * (y2 * y2 - x2 * x2);
            2 * (e * e) == w - v && 2 * (h * h) == w + v
  {
    var X1, Y1, X2, Y2 := x1 * x1, y1 * y1, x2 * x2, y2 * y2;
    var a, b, c, d := x1 * y2, y1 * x2, y1 * y2, x1 * x2;
    var k := (x1 * y1) * (x2 * y2);
    Foil(a, b, a, b);
    Foil(c, d, c, d);
    assert a * a == X1 * Y2 by { MulCross(x1, y2, x1, y2); }
    assert b * b == Y1 * X2 by { MulCross(y1, x2, y1, x2); }
    assert c * c == Y1 * Y2 by { MulCross(y1, y2, y1, y2); }
    assert d * d == X1 * X2 by { MulCross(x1, x2, x1, x2); }
    assert a * b == k && b * a == k by { MulCross(x1, y2, y1, x2); }
    assert c * d == k && d * c == k by { MulCross(y1, y2, x1, x2); }
    Foil(X1, Y1, X2, Y2);
    Foil(Y1, X1, Y2, X2);
  }

  lemma SquaresFG(cv: Curve, p: Point, q: Point)
    requires OnCurve(cv, p) && OnCurve(cv, q)
    ensures var d, f, g := cv.d, SumF(cv, p, q), SumG(cv, p, q);
            var m := (p.z * p.z) * (q.z * q.z) + (d * (p.t * p.t)) * (d * (q.t * q.t));
            var n := 2 * (d * ((p.x * p.y) * (q.x * q.y)));
            Eq(cv, g * g, m + n) && Eq(cv, f * f, m - n)
  {
    var d, f, g := cv.d, SumF(cv, p, q), SumG(cv, p, q);
    var m := (p.z * p.z) * (q.z * q.z) + (d * (p.t * p.t)) * (d * (q.t * q.t));
    var n := 2 * (d * ((p.x * p.y) * (q.x * q.y)));
    var n' := 2 * (d * ((p.z * p.t) * (q.z * q.t)));
    CongMul(p.x * p.y, p.z * p.t, q.x * q.y, q.z * q.t, cv.p);
    Nil1(cv, (p.x * p.y) * (q.x * q.y) - (p.z * p.t) * (q.z * q.t), 2 * d, n - n');
    SquaresFGExact(p.z, p.t, q.z, q.t, d);
    Nil1(cv, n - n', -1, g * g - (m + n));
    Nil1(cv, n - n', 1, f * f - (m - n));
  }

  lemma SquaresFGExact(z1: int, t1: int, z2: int, t2: int, d: int)
    ensures var f, g := z1 * z2 - d * (t1 * t2), z1 * z2 + d * (t1 * t2);
            var m := (z1 * z1) * (z2 * z2) + (d * (t1 * t1)) * (d * (t2 * t2));
            var n := 2 * (d * ((z1 * t1) * (z2 * t2)));
            g * g == m + n && f * f == m - n
  {
    var u, s := z1 * z2, t1 * t2;
    var w := d * s;
    MulCross(z1, z2, z1, z2);
    MulCross(t1, t2, t1, t2);
    MulCross(d, s, d, s);
    MulCross(d, t1 * t1, d, t2 * t2);
    MulCross(z1, z2, t1, t2);
    MulSwap(u, d, s);
    assert (u + w) * (u + w) == u * u + w * w + 2 * (u * w);
    assert (u - w) * (u - w) == u * u + w * w - 2 * (u * w);
  }

  lemma ClosureStep1(cv: Curve, gg: int, ff: int, m: int, n: int, w: int, v: int, ee: int, hh: int, d: int)
    requires Eq(cv, gg, m + n) && Eq(cv, ff, m - n) && 2 * ee == w - v && 2 * hh == w + v
    ensures Eq(cv, 4 * (gg * hh - ee * ff - ff * gg - d * (ee * hh)),
               4 * (m * v) + 4 * (n * w) - 4 * (m * m) + 4 * (n * n) - d * (w * w) + d * (v * v))
  {
    var g, f := m + n, m - n;
    var target := 4 * (gg * hh - ee * ff - ff * gg - d * (ee * hh));
    var plain := 2 * (g * (w + v)) - 2 * (f * (w - v)) - 4 * (f * g) - d * ((w - v) * (w + v));
    assert target == 2 * (gg * (w + v)) - 2 * (ff * (w - v)) - 4 * (ff * gg) - d * ((w - v) * (w + v)) by {
      MulSwap(gg, 2, hh);
      MulSwap(ff, 2, ee);
      MulCross(2, ee, 2, hh);
      MulSwap(d, 4, ee * hh);
    }
    ClosureReplace(gg, g, ff, f, w + v, w - v);
    Nil2(cv, gg - g, 2 * (w + v) - 4 * ff, ff - f, -2 * (w - v) - 4 * g, target - plain);
    ClosureExpand(m, n, w, v, d);
  }

  lemma ClosureReplace(gg: int, g: int, ff: int, f: int, s: int, r: int)
    ensures (2 * s - 4 * ff) * (gg - g) + (-2 * r - 4 * g) * (ff - f)
         == 2 * (gg * s) - 2 * (ff * r) - 4 * (ff * gg) - (2 * (g * s) - 2 * (f * r) - 4 * (f * g))
  {
  }

  lemma ClosureExpand(m: int, n: int, w: int, v: int, d: int)
    ensures 2 * ((m + n) * (w + v)) - 2 * ((m - n) * (w - v)) - 4 * ((m - n) * (m + n)) - d * ((w - v) * (w + v))
         == 4 * (m * v) + 4 * (n * w) - 4 * (m * m) + 4 * (n * n) - d * (w * w) + d * (v * v)
  {
    assert (m + n) * (w + v) == m * w + m * v + n * w + n * v;
    assert (m - n) * (w - v) == m * w - m * v - n * w + n * v;
    assert (m - n) * (m + n) == m * m - n * n;
    assert (w - v) * (w + v) == w * w - v * v;
    assert d * (w * w - v * v) == d * (w * w) - d * (v * v);
  }

  /** With N = 2dQ and W = s + 4Q, the terms in W collapse. */
  lemma ClosureStep2(d: int, a1: int, q1: int, s1: int, a2: int, q2: int, s2: int)
    requires s1 * s1 == a1 * a1 + 4 * (q1 * q1) && s2 * s2 == a2 * a2 + 4 * (q2 * q2)
    ensures var q, v := q1 * q2, a1 * a2;
            var w, n := s1 * s2 + 4 * q, 2 * (d * q);
            4 * (n * w) - d * (w * w) + d * (v * v)
              == -4 * ((a1 * a1) * (d * (q2 * q2))) - 4 * ((a2 * a2) * (d * (q1 * q1)))
  {
    var q, v, s := q1 * q2, a1 * a2, s1 * s2;
    var x1, y1, x2, y2 := a1 * a1, q1 * q1, a2 * a2, q2 * q2;
    CollapseW(d, q, s);
    SquareOfProducts(a1, q1, s1, a2, q2, s2);
    DistFour(d, v * v, x1 * y2, y1 * x2, q * q);
    MulSwap(d, x1, y2);
    MulSwap(d, y1, x2);
    MulSwap(d, x2, y1);
  }

  lemma SquareOfProducts(a1: int, q1: int, s1: int, a2: int, q2: int, s2: int)
    requires s1 * s1 == a1 * a1 + 4 * (q1 * q1) && s2 * s2 == a2 * a2 + 4 * (q2 * q2)
    ensures var q, v, s := q1 * q2, a1 * a2, s1 * s2;
            s * s == v * v + 4 * ((a1 * a1) * (q2 * q2)) + 4 * ((q1 * q1) * (a2 * a2)) + 16 * (q * q)
  {
    var x1, y1, x2, y2 := a1 * a1, q1 * q1, a2 * a2, q2 * q2;
    MulCross(s1, s2, s1, s2);
    MulCross(a1, a2, a1, a2);
    MulCross(q1, q2, q1, q2);
    Foil(x1, 4 * y1, x2, 4 * y2);
    MulSwap(x1, 4, y2);
    MulSwap(4, y1, x2);
    MulCross(4, y1, 4, y2);
  }

  lemma DistFour(d: int, a: int, b: int, c: int, e: int)
    ensures d * (a + 4 * b + 4 * c + 16 * e) == d * a + 4 * (d * b) + 4 * (d * c) + 16 * (d * e)
  {
    Dist(d, a, 4 * b);
    Dist(d, a + 4 * b, 4 * c);
    Dist(d, a + 4 * b + 4 * c, 16 * e);
    MulSwap(d, 4, b);
    MulSwap(d, 4, c);
    MulSwap(d, 16, e);
  }

  lemma SquareOfSum(s: int, q: int)
    ensures (s + 4 * q) * (s + 4 * q) == s * s + 8 * (q * s) + 16 * (q * q)
  {
    Foil(s, 4 * q, s, 4 * q);
  }

  lemma DistWeighted(d: int, a: int, b: int, c: int)
    ensures d * (a + 8 * b + 16 * c) == d * a + 8 * (d * b) + 16 * (d * c)
  {
    Dist(d, a, 8 * b);
    Dist(d, a + 8 * b, 16 * c);
  }

  lemma TwiceTimesSum(u: int, s: int, q: int)
    ensures (2 * u) * (s + 4 * q) == 2 * (u * s) + 8 * (u * q)
  {
    Dist(2 * u, s, 4 * q);
  }

  lemma CollapseW(d: int, q: int, s: int)
    ensures var w, n := s + 4 * q, 2 * (d * q);
            4 * (n * w) - d * (w * w) == 16 * (d * (q * q)) - d * (s * s)
  {
    SquareOfSum(s, q);
    DistWeighted(d, s * s, q * s, q * q);
    TwiceTimesSum(d * q, s, q);
    MulSwap(d, q, s);
    MulSwap(d, q, q);
  }

  /** Replacing c by AB and a by A + B, everything cancels. */
  lemma ClosureStep3(cv: Curve, A1: int, B1: int, a1: int, c1: int, A2: int, B2: int, a2: int, c2: int)
    requires Eq(cv, a1, A1 + B1) && Eq(cv, a2, A2 + B2) && Eq(cv, c1, A1 * B1) && Eq(cv, c2, A2 * B2)
    ensures var m := A1 * A2 + B1 * B2;
            Nil(cv, 4 * (m * (a1 * a2)) - 4 * (m * m) + 16 * (c1 * c2) - 4 * ((a1 * a1) * c2) - 4 * ((a2 * a2) * c1))
  {
    var m, k1, k2, b1, b2 := A1 * A2 + B1 * B2, A1 * B1, A2 * B2, A1 + B1, A2 + B2;
    var start := 4 * (m * (a1 * a2)) - 4 * (m * m) + 16 * (c1 * c2) - 4 * ((a1 * a1) * c2) - 4 * ((a2 * a2) * c1);
    var middle := 4 * (m * (a1 * a2)) - 4 * (m * m) + 16 * (k1 * k2) - 4 * ((a1 * a1) * k2) - 4 * ((a2 * a2) * k1);
    var end := 4 * (m * (b1 * b2)) - 4 * (m * m) + 16 * (k1 * k2) - 4 * ((b1 * b1) * k2) - 4 * ((b2 * b2) * k1);
    ClosureReplaceC(c1, k1, c2, k2, a1 * a1, a2 * a2);
    Nil2(cv, c1 - k1, 16 * c2 - 4 * (a2 * a2), c2 - k2, 16 * k1 - 4 * (a1 * a1), start - middle);
    ClosureReplaceA(m, a1, b1, a2, b2, k1, k2);
    Nil2(cv, a1 - b1, 4 * (m * a2) - 4 * (k2 * (a1 + b1)), a2 - b2, 4 * (m * b1) - 4 * (k1 * (a2 + b2)), middle - end);
    ClosureCancels(A1, B1, A2, B2);
    Nil2(cv, start - middle, 1, middle - end, 1, start);
  }

  lemma ReplaceSquare(u: int, k: int, a: int, b: int)
    ensures (4 * u - 4 * (k * (a + b))) * (a - b)
         == 4 * (u * a) - 4 * (u * b) - 4 * ((a * a) * k) + 4 * ((b * b) * k)
  {
    assert (a + b) * (a - b) == a * a - b * b;
    MulSwap(k, a + b, a - b);
  }

  lemma ClosureReplaceA(m: int, a1: int, b1: int, a2: int, b2: int, k1: int, k2: int)
    ensures (4 * (m * a2) - 4 * (k2 * (a1 + b1))) * (a1 - b1) + (4 * (m * b1) - 4 * (k1 * (a2 + b2))) * (a2 - b2)
         == (4 * (m * (a1 * a2)) - 4 * ((a1 * a1) * k2) - 4 * ((a2 * a2) * k1))
          - (4 * (m * (b1 * b2)) - 4 * ((b1 * b1) * k2) - 4 * ((b2 * b2) * k1))
  {
    ReplaceSquare(m * a2, k2, a1, b1);
    ReplaceSquare(m * b1, k1, a2, b2);
    MulSwap(m, a1, a2);
    MulSwap(m, a2, a1);
    MulSwap(m, a2, b1);
    MulSwap(m, b1, a2);
    MulSwap(m, b1, b2);
    assert a1 * a2 == a2 * a1 && a2 * b1 == b1 * a2;
  }

  lemma ClosureReplaceC(c1: int, k1: int, c2: int, k2: int, x1: int, x2: int)
    ensures (16 * c2 - 4 * x2) * (c1 - k1) + (16 * k1 - 4 * x1) * (c2 - k2)
         == (16 * (c1 * c2) - 4 * (x1 * c2) - 4 * (x2 * c1)) - (16 * (k1 * k2) - 4 * (x1 * k2) - 4 * (x2 * k1))
  {
  }

  lemma ClosureCancels(A1: int, B1: int, A2: int, B2: int)
    ensures var m, k1, k2, b1, b2 := A1 * A2 + B1 * B2, A1 * B1, A2 * B2, A1 + B1, A2 + B2;
            m * (b1 * b2) - m * m + 4 * (k1 * k2) - (b1 * b1) * k2 - (b2 * b2) * k1 == 0
  {
  }

  lemma ClosureCore(cv: Curve, p: Point, q: Point)
    requires OnCurve(cv, p) && OnCurve(cv, q)
    ensures var e, f, g, h := SumE(cv, p, q), SumF(cv, p, q), SumG(cv, p, q), SumH(cv, p, q);
            Nil(cv, 4 * ((g * g) * (h * h) - (e * e) * (f * f) - (f * f) * (g * g) - cv.d * ((e * e) * (h * h))))
  {
    var d, e, f, g, h := cv.d, SumE(cv, p, q), SumF(cv, p, q), SumG(cv, p, q), SumH(cv, p, q);
    var A1, B1, A2, B2 := p.z * p.z, d * (p.t * p.t), q.z * q.z, d * (q.t * q.t);
    var a1, q1, s1 := p.y * p.y - p.x * p.x, p.x * p.y, p.x * p.x + p.y * p.y;
    var a2, q2, s2 := q.y * q.y - q.x * q.x, q.x * q.y, q.x * q.x + q.y * q.y;
    var m, n, w, v := A1 * A2 + B1 * B2, 2 * (d * (q1 * q2)), s1 * s2 + 4 * (q1 * q2), a1 * a2;
    PointFacts(cv, p);
    PointFacts(cv, q);
    SumOfSquares(p.x, p.y);
    SumOfSquares(q.x, q.y);
    SquaresEH(p.x, p.y, q.x, q.y);
    SquaresFG(cv, p, q);
    ClosureStep1(cv, g * g, f * f, m, n, w, v, e * e, h * h, d);
    ClosureStep2(d, a1, q1, s1, a2, q2, s2);
    var c1, c2 := d * (q1 * q1), d * (q2 * q2);
    ClosureStep3(cv, A1, B1, a1, c1, A2, B2, a2, c2);
    assert n * n == 4 * (c1 * c2) by {
      MulCross(d, q1 * q2, d, q1 * q2);
      MulCross(q1, q2, q1, q2);
      MulCross(d, q1 * q1, d, q2 * q2);
    }
    var last := 4 * (m * v) - 4 * (m * m) + 16 * (c1 * c2) - 4 * ((a1 * a1) * c2) - 4 * ((a2 * a2) * c1);
    var first := 4 * ((g * g) * (h * h) - (e * e) * (f * f) - (f * f) * (g * g) - d * ((e * e) * (h * h)));
    Nil2(cv, first - last, 1, last, 1, first);
  }

  /** Scaling (ef, gh, fg, eh) by 4 keeps the curve equations. */
  lemma ScaledOnCurve(cv: Curve, r: Point, e: int, f: int, g: int, h: int)
    requires Eq(cv, r.x, 4 * (e * f)) && Eq(cv, r.y, 4 * (g * h)) && Eq(cv, r.z, 4 * (f * g))
        && Eq(cv, r.t, 4 * (e * h))
    requires Nil(cv, 4 * ((g * g) * (h * h) - (e * e) * (f * f) - (f * f) * (g * g) - cv.d * ((e * e) * (h * h))))
    ensures OnCurve(cv, r)
  {
    var d := cv.d;
    var ef, gh, fg, eh := e * f, g * h, f * g, e * h;
    CongMul(r.x, 4 * ef, r.y, 4 * gh, cv.p);
    CongMul(r.z, 4 * fg, r.t, 4 * eh, cv.p);
    assert (4 * ef) * (4 * gh) == (4 * fg) * (4 * eh) by {
      MulCross(4, ef, 4, gh);
      MulCross(4, fg, 4, eh);
      MulCross(e, f, g, h);
      MulCross(f, g, e, h);
      assert (e * g) * (f * h) == (f * e) * (g * h) by { MulCross(e, g, f, h); }
    }
    CongSym(r.z * r.t, (4 * fg) * (4 * eh), cv.p);
    CongTrans(r.x * r.y, (4 * ef) * (4 * gh), r.z * r.t, cv.p);
    SquareOf(cv, r.x, e, f);
    SquareOf(cv, r.y, g, h);
    SquareOf(cv, r.z, f, g);
    SquareOf(cv, r.t, e, h);
    var XX, YY, ZZ, TT := r.x * r.x, r.y * r.y, r.z * r.z, r.t * r.t;
    var xx, yy, zz, tt := (e * e) * (f * f), (g * g) * (h * h), (f * f) * (g * g), (e * e) * (h * h);
    CurveFromSquares(cv, XX, YY, ZZ, TT, xx, yy, zz, tt, d);
  }

  lemma SquareOf(cv: Curve, r: int, e: int, f: int)
    requires Eq(cv, r, 4 * (e * f))
    ensures Eq(cv, r * r, 16 * ((e * e) * (f * f)))
  {
    CongMul(r, 4 * (e * f), r, 4 * (e * f), cv.p);
    MulCross(4, e * f, 4, e * f);
    MulCross(e, f, e, f);
  }

  lemma CurveFromSquares(cv: Curve, XX: int, YY: int, ZZ: int, TT: int, xx: int, yy: int, zz: int, tt: int, d: int)
    requires Eq(cv, XX, 16 * xx) && Eq(cv, YY, 16 * yy) && Eq(cv, ZZ, 16 * zz) && Eq(cv, TT, 16 * tt)
    requires Nil(cv, 4 * (yy - xx - zz - d * tt))
    ensures Eq(cv, YY - XX, ZZ + d * TT)
  {
    var c := 4 * (yy - xx - zz - d * tt);
    Nil3(cv, YY - 16 * yy, 1, XX - 16 * xx, -1, c, 4, YY - XX - 16 * zz - 16 * (d * tt));
    assert (-d) * (TT - 16 * tt) == 16 * (d * tt) - d * TT;
    Nil3(cv, YY - XX - 16 * zz - 16 * (d * tt), 1, ZZ - 16 * zz, -1, TT - 16 * tt, -d, (YY - XX) - (ZZ + d * TT));
  }

  /** The sum of two points of the curve is a point of the curve. */
  lemma AddOnCurve(cv: Curve, p: Point, q: Point)
    requires OnCurve(cv, p) && OnCurve(cv, q)
    ensures OnCurve(cv, PointAdd(cv, p, q))
  {
    AddCoordinates(cv, p, q);
    ClosureCore(cv, p, q);
    ScaledOnCurve(cv, PointAdd(cv, p, q), SumE(cv, p, q), SumF(cv, p, q), SumG(cv, p, q), SumH(cv, p, q));
  }

  // ----- completeness: the addition law has no exceptional cases

  /** If D t1 t2 = s z1 z2 with s = +-1, then z2^2 (r x1 + s y1)^2 = D t1^2 (r x2 + y2)^2 for r^2 = -1. */
  lemma ExceptionalSquare(cv: Curve, p: Point, q: Point, s: int, r: int)
    requires OnCurve(cv, p) && OnCurve(cv, q) && (s == 1 || s == -1) && Eq(cv, r * r, -1)
    requires Eq(cv, cv.d * (p.t * q.t), s * (p.z * q.z))
    ensures var u, v := q.z * (r * p.x + s * p.y), p.t * (r * q.x + q.y);
            Eq(cv, u * u, cv.d * (v * v))
  {
    var d := cv.d;
    var l, m := r * p.x + s * p.y, r * q.x + q.y;
    LineSquare(cv, p, s, r);
    LineSquare(cv, q, 1, r);
    var A2, T1 := q.z * q.z, p.t * p.t;
    var x := p.z * p.z + d * T1 + 2 * (s * (r * (p.z * p.t)));
    var y := A2 + d * (q.t * q.t) + 2 * (r * (q.z * q.t));
    MulCross(q.z, l, q.z, l);
    MulCross(p.t, m, p.t, m);
    assert s * s == 1 && 1 * (r * (q.z * q.t)) == r * (q.z * q.t);
    ExceptionalExact(d, p.z, p.t, q.z, q.t, s, r);
    var c, b := d * (p.t * q.t), p.z * q.z;
    Nil1(cv, c - s * b, c + s * b + 2 * (r * (p.t * q.z)), d * (T1 * y) - A2 * x);
    ReplaceBoth(cv, A2, l * l, x, d, T1, m * m, y);
  }

  lemma ReplaceBoth(cv: Curve, A: int, ll: int, x: int, d: int, T: int, mm: int, y: int)
    requires Eq(cv, ll, x) && Eq(cv, mm, y) && Nil(cv, d * (T * y) - A * x)
    ensures Eq(cv, A * ll, d * (T * mm))
  {
    assert A * (ll - x) == A * ll - A * x;
    assert (d * T) * (mm - y) == d * (T * mm) - d * (T * y) by {
      MulSwap(d, T, mm - y);
      MulSwap(d, T, mm);
      MulSwap(d, T, y);
    }
    Nil3(cv, ll - x, A, mm - y, -(d * T), d * (T * y) - A * x, -1, A * ll - d * (T * mm));
  }

  lemma LineSquareExact(x: int, y: int, s: int, r: int)
    requires s == 1 || s == -1
    ensures var l := r * x + s * y;
            l * l == (r * r) * (x * x) + y * y + 2 * (s * (r * (x * y)))
  {
    var a, b := r * x, s * y;
    Foil(a, b, a, b);
    assert a * a == (r * r) * (x * x) by { MulCross(r, x, r, x); }
    assert b * b == y * y by { MulCross(s, y, s, y); }
    assert a * b == s * (r * (x * y)) && b * a == a * b by {
      MulCross(r, x, s, y);
      MulSwap(r, s, x * y);
    }
  }

  /** (r x + s y)^2 on the curve. */
  lemma LineSquare(cv: Curve, p: Point, s: int, r: int)
    requires OnCurve(cv, p) && (s == 1 || s == -1) && Eq(cv, r * r, -1)
    ensures var l := r * p.x + s * p.y;
            Eq(cv, l * l, p.z * p.z + cv.d * (p.t * p.t) + 2 * (s * (r * (p.z * p.t))))
  {
    var d, x, y := cv.d, p.x, p.y;
    var l := r * x + s * y;
    LineSquareExact(x, y, s, r);
    var h1, h2, h3 := r * r - (-1), (y * y - x * x) - (p.z * p.z + d * (p.t * p.t)), x * y - p.z * p.t;
    assert (2 * (s * r)) * h3 == 2 * (s * (r * (x * y))) - 2 * (s * (r * (p.z * p.t))) by {
      MulSwap(2, s * r, h3);
      MulSwap(s, r, h3);
      Dist(r, x * y, p.z * p.t);
      Dist(s, r * (x * y), r * (p.z * p.t));
    }
    Dist(x * x, r * r, -1);
    Nil3(cv, h1, x * x, h2, 1, h3, 2 * (s * r), l * l - (p.z * p.z + d * (p.t * p.t) + 2 * (s * (r * (p.z * p.t)))));
  }

  lemma ExceptionalExact(d: int, z1: int, t1: int, z2: int, t2: int, s: int, r: int)
    requires s * s == 1
    ensures var c, b := d * (t1 * t2), z1 * z2;
            var left := (z2 * z2) * (z1 * z1 + d * (t1 * t1) + 2 * (s * (r * (z1 * t1))));
            var right := d * ((t1 * t1) * (z2 * z2 + d * (t2 * t2) + 2 * (r * (z2 * t2))));
            (c + s * b + 2 * (r * (t1 * z2))) * (c - s * b) == right - left
  {
    var c, b, u := d * (t1 * t2), z1 * z2, t1 * z2;
    ExceptionalRight(d, t1, z2, t2, r);
    ExceptionalLeft(d, z1, t1, z2, s, r);
    var k := s * b;
    assert k * k == b * b by { MulCross(s, b, s, b); }
    Foil(c, k, c, k);
    Dist(c - k, c + k, 2 * (r * u));
    Dist(u, c, k);
    Dist(r, u * c, u * k);
    MulSwap(r, u, c - k);
    MulSwap(2, r * u, c - k);
  }

  lemma ExceptionalRight(d: int, t1: int, z2: int, t2: int, r: int)
    ensures var c, u := d * (t1 * t2), t1 * z2;
            d * ((t1 * t1) * (z2 * z2 + d * (t2 * t2) + 2 * (r * (z2 * t2))))
              == d * ((t1 * t1) * (z2 * z2)) + c * c + 2 * (r * (u * c))
  {
    var c, u, T1, A2, T2, w := d * (t1 * t2), t1 * z2, t1 * t1, z2 * z2, t2 * t2, r * (z2 * t2);
    Dist(T1, A2 + d * T2, 2 * w);
    Dist(T1, A2, d * T2);
    Dist(d, T1 * A2 + T1 * (d * T2), 2 * (T1 * w));
    Dist(d, T1 * A2, T1 * (d * T2));
    MulSwap(2, T1, w);
    MulSwap(2, d, T1 * w);
    assert d * (T1 * (d * T2)) == c * c by {
      MulSwap(d, T1, d * T2);
      MulCross(d, T1, d, T2);
      MulCross(t1, t1, t2, t2);
      MulCross(d, t1 * t2, d, t1 * t2);
    }
    assert d * (T1 * w) == r * (u * c) by {
      MulSwap(T1, r, z2 * t2);
      MulCross(t1, t1, z2, t2);
      MulSwap(d, r, u * (t1 * t2));
      MulSwap(d, u, t1 * t2);
    }
  }

  lemma ExceptionalLeft(d: int, z1: int, t1: int, z2: int, s: int, r: int)
    ensures var b, u := z1 * z2, t1 * z2;
            (z2 * z2) * (z1 * z1 + d * (t1 * t1) + 2 * (s * (r * (z1 * t1))))
              == b * b + d * ((t1 * t1) * (z2 * z2)) + 2 * (r * (u * (s * b)))
  {
    var b, u, A1, A2, T1, w := z1 * z2, t1 * z2, z1 * z1, z2 * z2, t1 * t1, s * (r * (z1 * t1));
    Dist(A2, A1 + d * T1, 2 * w);
    Dist(A2, A1, d * T1);
    MulSwap(2, A2, w);
    assert A2 * A1 == b * b by { MulCross(z2, z2, z1, z1); }
    assert A2 * (d * T1) == d * (T1 * A2) by { MulSwap(A2, d, T1); }
    assert A2 * w == r * (u * (s * b)) by {
      MulSwap(A2, s, r * (z1 * t1));
      MulSwap(A2, r, z1 * t1);
      MulCross(z2, z2, z1, t1);
      MulSwap(s, r, b * u);
      MulSwap(u, s, b);
    }
  }

  /** In the exceptional case the second point lies on the line r x + y = 0, for a root r of -1. */
  lemma LineVanishes(cv: Curve, p: Point, q: Point, s: int, r: int)
    requires Good(cv) && Valid(cv, p) && Valid(cv, q) && (s == 1 || s == -1) && r * r == cv.i * cv.i
    requires Eq(cv, cv.d * (p.t * q.t), s * (p.z * q.z))
    ensures Nil(cv, r * q.x + q.y)
  {
    NonZeroMul(p.z, q.z, cv.p);
    TNonNil(cv, p, q, s);
    ExceptionalSquare(cv, p, q, s, r);
    DIsNonSquare(cv, q.z * (r * p.x + s * p.y), p.t * (r * q.x + q.y));
    Euclid(p.t, r * q.x + q.y, cv.p);
  }

  /** A point on both lines has T = 0. */
  lemma BothLinesVanish(cv: Curve, q: Point, r: int)
    requires Good(cv) && Valid(cv, q) && Nil(cv, r * q.x + q.y) && Nil(cv, -r * q.x + q.y)
    ensures Nil(cv, q.t)
  {
    var u, v := r * q.x + q.y, -r * q.x + q.y;
    assert u + v == 2 * q.y;
    Nil2(cv, u, 1, v, 1, 2 * q.y);
    Euclid(2, q.y, cv.p);
    SmallNonNil(cv, 2);
    Nil2(cv, q.y, q.x, q.x * q.y - q.z * q.t, -1, q.z * q.t);
    Euclid(q.z, q.t, cv.p);
  }

  /** The products Z1 Z2 +- D T1 T2 never vanish. */
  lemma {:induction false} NeverExceptional(cv: Curve, p: Point, q: Point, s: int)
    requires Good(cv) && Valid(cv, p) && Valid(cv, q) && (s == 1 || s == -1)
    ensures !Eq(cv, cv.d * (p.t * q.t), s * (p.z * q.z))
  {
    if Eq(cv, cv.d * (p.t * q.t), s * (p.z * q.z)) {
      var r := cv.i;
      assert (-r) * (-r) == r * r;
      LineVanishes(cv, p, q, s, r);
      LineVanishes(cv, p, q, s, -r);
      BothLinesVanish(cv, q, r);
      NonZeroMul(p.z, q.z, cv.p);
      TNonNil(cv, p, q, s);
      assert false;
    }
  }

  lemma TNonNil(cv: Curve, p: Point, q: Point, s: int)
    requires Good(cv) && (s == 1 || s == -1) && !Nil(cv, p.z * q.z)
    requires Eq(cv, cv.d * (p.t * q.t), s * (p.z * q.z))
    ensures !Nil(cv, p.t) && !Nil(cv, q.t)
  {
    var d, c, b := cv.d, cv.d * (p.t * q.t), p.z * q.z;
    if Nil(cv, p.t) || Nil(cv, q.t) {
      if Nil(cv, p.t) { ZeroMul(p.t, q.t, cv.p); } else { ZeroMul(q.t, p.t, cv.p); }
      ZeroMul(p.t * q.t, d, cv.p);
      assert s * s == 1;
      MulSwap(s, s, b);
      Nil2(cv, c, s, c - s * b, -s, b);
      assert false;
    }
  }

  /** Addition is complete: the sum of two valid points is a valid point. */
  lemma AddValid(cv: Curve, p: Point, q: Point)
    requires Good(cv) && Valid(cv, p) && Valid(cv, q)
    ensures Valid(cv, PointAdd(cv, p, q))
  {
    AddOnCurve(cv, p, q);
    AddCoordinates(cv, p, q);
    var d, f, g := cv.d, SumF(cv, p, q), SumG(cv, p, q);
    NeverExceptional(cv, p, q, 1);
    NeverExceptional(cv, p, q, -1);
    if Nil(cv, f) { Nil1(cv, f, -1, d * (p.t * q.t) - 1 * (p.z * q.z)); }
    NonZeroMul(f, g, cv.p);
    SmallNonNil(cv, 4);
    NonZeroMul(4, f * g, cv.p);
    var z := PointAdd(cv, p, q).z;
    if Nil(cv, z) { Nil2(cv, z, 1, z - 4 * (f * g), -1, 4 * (f * g)); }
  }
}
