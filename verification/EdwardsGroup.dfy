/** Point equality as an equivalence and a congruence for addition, with the identity as neutral element. */
module EdwardsGroup {
  import opened PrimeField
  import opened EdwardsField
  import opened EdwardsPoints

  // ----- PointEqual is an equivalence on valid points

  lemma EqualRefl(cv: Curve, p: Point)
    ensures PointEqual(cv, p, p)
  {
  }

  lemma EqualSym(cv: Curve, p: Point, q: Point)
    requires PointEqual(cv, p, q)
    ensures PointEqual(cv, q, p)
  {
    Nil1(cv, p.x * q.z - q.x * p.z, -1, q.x * p.z - p.x * q.z);
    Nil1(cv, p.y * q.z - q.y * p.z, -1, q.y * p.z - p.y * q.z);
  }

  lemma RatioTransExact(a: int, b: int, c: int, u: int, v: int, w: int)
    ensures v * (a * w - c * u) == w * (a * v - b * u) + u * (b * w - c * v)
  {
    Dist(v, a * w, c * u);
    Dist(w, a * v, b * u);
    Dist(u, b * w, c * v);
    MulSwap(v, a, w);
    MulSwap(w, a, v);
    MulSwap(v, c, u);
    MulSwap(u, c, v);
    MulSwap(w, b, u);
    MulSwap(u, b, w);
    assert v * w == w * v && v * u == u * v && w * u == u * w;
  }

  lemma RatioTrans(cv: Curve, a: int, b: int, c: int, u: int, v: int, w: int)
    requires Good(cv) && !Nil(cv, v)
    requires Nil(cv, a * v - b * u) && Nil(cv, b * w - c * v)
    ensures Nil(cv, a * w - c * u)
  {
    RatioTransExact(a, b, c, u, v, w);
    Nil2(cv, a * v - b * u, w, b * w - c * v, u, v * (a * w - c * u));
    Euclid(v, a * w - c * u, cv.p);
  }

  lemma EqualTrans(cv: Curve, p: Point, q: Point, r: Point)
    requires Good(cv) && !Nil(cv, q.z) && PointEqual(cv, p, q) && PointEqual(cv, q, r)
    ensures PointEqual(cv, p, r)
  {
    RatioTrans(cv, p.x, q.x, r.x, p.z, q.z, r.z);
    RatioTrans(cv, p.y, q.y, r.y, p.z, q.z, r.z);
  }

  // ----- the identity

  lemma IdentityValid(cv: Curve)
    requires Good(cv)
    ensures Valid(cv, IDENTITY)
  {
    var d := cv.d;
    assert d * (0 * 0) == 0;
    SmallNonNil(cv, 1);
  }

  lemma AddIdentity(cv: Curve, p: Point)
    ensures PointEqual(cv, PointAdd(cv, p, IDENTITY), p) && PointEqual(cv, PointAdd(cv, IDENTITY, p), p)
  {
    var r, d := PointAdd(cv, p, IDENTITY), cv.d;
    AddCommutes(cv, p, IDENTITY);
    AddCoordinates(cv, p, IDENTITY);
    assert SumE(cv, p, IDENTITY) == p.x && SumH(cv, p, IDENTITY) == p.y;
    assert d * (p.t * 0) == 0;
    assert SumF(cv, p, IDENTITY) == p.z && SumG(cv, p, IDENTITY) == p.z;
    NeutralCoordinate(cv, r.x, p.x, r.z, p.z);
    assert p.z * p.y == p.y * p.z;
    NeutralCoordinate(cv, r.y, p.y, r.z, p.z);
  }

  lemma NeutralCoordinate(cv: Curve, rx: int, x: int, rz: int, z: int)
    requires Eq(cv, rx, 4 * (x * z)) && Eq(cv, rz, 4 * (z * z))
    ensures Nil(cv, rx * z - x * rz)
  {
    var a, b := 4 * (x * z), 4 * (z * z);
    assert z * a == x * b by {
      MulSwap(z, 4, x * z);
      MulSwap(x, 4, z * z);
      MulSwap(z, x, z);
    }
    Dist(z, rx, a);
    Dist(x, rz, b);
    assert (-x) * (rz - b) == -(x * (rz - b));
    Nil2(cv, rx - a, z, rz - b, -x, rx * z - x * rz);
  }

  // ----- PointAdd respects PointEqual

  lemma TRatio(cv: Curve, p: Point, q: Point)
    requires Good(cv) && Valid(cv, p) && Valid(cv, q) && PointEqual(cv, p, q)
    ensures Nil(cv, p.t * q.z - q.t * p.z)
  {
    var zz := p.z * q.z;
    // z z' (t z' - t' z) = x y z'^2 - x' y' z^2
    var g := p.t * q.z - q.t * p.z;
    var h1, h2 := p.x * q.z - q.x * p.z, p.y * q.z - q.y * p.z;
    var k1, k2 := p.x * p.y - p.z * p.t, q.x * q.y - q.z * q.t;
    CongMul(p.x * q.z, q.x * p.z, p.y * q.z, q.y * p.z, cv.p);
    var left, right := (p.x * q.z) * (p.y * q.z), (q.x * p.z) * (q.y * p.z);
    assert left == (p.x * p.y) * (q.z * q.z) by { MulCross(p.x, q.z, p.y, q.z); }
    assert right == (q.x * q.y) * (p.z * p.z) by { MulCross(q.x, p.z, q.y, p.z); }
    assert zz * g == (p.z * p.t) * (q.z * q.z) - (q.z * q.t) * (p.z * p.z) by {
      MulCross(p.z, q.z, p.t, q.z);
      MulCross(q.z, p.z, q.t, p.z);
      assert p.z * q.z == q.z * p.z;
    }
    TRatioExact(p.x * p.y, p.z * p.t, q.x * q.y, q.z * q.t, q.z * q.z, p.z * p.z);
    Nil3(cv, left - right, 1, k1, -(q.z * q.z), k2, p.z * p.z, zz * g);
    NonZeroMul(p.z, q.z, cv.p);
    Euclid(zz, g, cv.p);
  }

  lemma TRatioExact(a: int, b: int, c: int, d: int, u: int, v: int)
    ensures (a * u - c * v) + (-u) * (a - b) + v * (c - d) == b * u - d * v
  {
  }

  /** The four products scale with Z. */
  lemma SumRatios(cv: Curve, p: Point, p': Point, q: Point)
    requires Good(cv) && Valid(cv, p) && Valid(cv, p') && PointEqual(cv, p, p')
    ensures Nil(cv, SumE(cv, p, q) * p'.z - SumE(cv, p', q) * p.z)
    ensures Nil(cv, SumH(cv, p, q) * p'.z - SumH(cv, p', q) * p.z)
    ensures Nil(cv, SumF(cv, p, q) * p'.z - SumF(cv, p', q) * p.z)
    ensures Nil(cv, SumG(cv, p, q) * p'.z - SumG(cv, p', q) * p.z)
  {
    TRatio(cv, p, p');
    LinearRatio(cv, p.x, p'.x, p.y, p'.y, p.z, p'.z, q.y, q.x);
    LinearRatio(cv, p.y, p'.y, p.x, p'.x, p.z, p'.z, q.y, q.x);
    ZRatio(cv, p, p', q);
  }

  lemma ZRatio(cv: Curve, p: Point, p': Point, q: Point)
    requires Nil(cv, p.t * p'.z - p'.t * p.z)
    ensures Nil(cv, SumF(cv, p, q) * p'.z - SumF(cv, p', q) * p.z)
    ensures Nil(cv, SumG(cv, p, q) * p'.z - SumG(cv, p', q) * p.z)
  {
    var u, d := cv.d * q.t, cv.d;
    MulSwap(p.t, d, q.t);
    MulSwap(p'.t, d, q.t);
    assert p.z * p'.z - p'.z * p.z == 0;
    CongRefl(p.z * p'.z, cv.p);
    LinearRatio(cv, p.z, p'.z, p.t, p'.t, p.z, p'.z, q.z, -u);
    LinearRatio(cv, p.z, p'.z, p.t, p'.t, p.z, p'.z, q.z, u);
    assert p.t * (-u) == -(p.t * u) && p'.t * (-u) == -(p'.t * u);
  }

  lemma AddRespectsEqual(cv: Curve, p: Point, p': Point, q: Point)
    requires Good(cv) && Valid(cv, p) && Valid(cv, p') && Valid(cv, q) && PointEqual(cv, p, p')
    ensures PointEqual(cv, PointAdd(cv, p, q), PointAdd(cv, p', q))
  {
    var e, f, g, h := SumE(cv, p, q), SumF(cv, p, q), SumG(cv, p, q), SumH(cv, p, q);
    var e', f', g', h' := SumE(cv, p', q), SumF(cv, p', q), SumG(cv, p', q), SumH(cv, p', q);
    var r, r' := PointAdd(cv, p, q), PointAdd(cv, p', q);
    SumRatios(cv, p, p', q);
    AddCoordinates(cv, p, q);
    AddCoordinates(cv, p', q);
    CrossRatio(cv, e, e', g, g', p.z, p'.z);
    CrossRatio(cv, h, h', f, f', p.z, p'.z);
    SumRatio(cv, r.x, r.z, r'.x, r'.z, e, f, g, e', f', g');
    assert f * g == g * f && f' * g' == g' * f' && g * h == h * g && g' * h' == h' * g';
    SumRatio(cv, r.y, r.z, r'.y, r'.z, h, g, f, h', g', f');
  }

  lemma LinearRatioExact(a: int, a': int, b: int, b': int, z: int, z': int, m: int, n: int)
    ensures (a * m + b * n) * z' - (a' * m + b' * n) * z == m * (a * z' - a' * z) + n * (b * z' - b' * z)
  {
    Dist(z', a * m, b * n);
    Dist(z, a' * m, b' * n);
    Dist(m, a * z', a' * z);
    Dist(n, b * z', b' * z);
    MulSwap(m, a, z');
    MulSwap(m, a', z);
    MulSwap(n, b, z');
    MulSwap(n, b', z);
    MulSwap(a, m, z');
    MulSwap(a', m, z);
    MulSwap(b, n, z');
    MulSwap(b', n, z);
  }

  /** If a/z = a'/z' and b/z = b'/z' then (am + bn)/z = (a'm + b'n)/z'. */
  lemma LinearRatio(cv: Curve, a: int, a': int, b: int, b': int, z: int, z': int, m: int, n: int)
    requires Nil(cv, a * z' - a' * z) && Nil(cv, b * z' - b' * z)
    ensures Nil(cv, (a * m + b * n) * z' - (a' * m + b' * n) * z)
  {
    LinearRatioExact(a, a', b, b', z, z', m, n);
    Nil2(cv, a * z' - a' * z, m, b * z' - b' * z, n, (a * m + b * n) * z' - (a' * m + b' * n) * z);
  }

  lemma CrossRatioExact(e: int, e': int, g: int, g': int, z: int, z': int)
    ensures z * (e * g' - e' * g) == -e * (g * z' - g' * z) + g * (e * z' - e' * z)
  {
    Dist(z, e * g', e' * g);
    Dist(e, g * z', g' * z);
    Dist(g, e * z', e' * z);
    MulSwap(z, e, g');
    MulSwap(z, e', g);
    MulSwap(e, g, z');
    assert z * g' == g' * z && z * e' == e' * z;
    MulSwap(e', z, g);
    MulSwap(g, e', z);
    assert (-e) * (g * z' - g' * z) == -(e * (g * z' - g' * z));
  }

  /** If e/z = e'/z' and g/z = g'/z' then e g' = e' g. */
  lemma CrossRatio(cv: Curve, e: int, e': int, g: int, g': int, z: int, z': int)
    requires Good(cv) && !Nil(cv, z) && !Nil(cv, z')
    requires Nil(cv, e * z' - e' * z) && Nil(cv, g * z' - g' * z)
    ensures Nil(cv, e * g' - e' * g)
  {
    CrossRatioExact(e, e', g, g', z, z');
    Nil2(cv, g * z' - g' * z, -e, e * z' - e' * z, g, z * (e * g' - e' * g));
    Euclid(z, e * g' - e' * g, cv.p);
  }

  lemma SumRatio(cv: Curve, x: int, z: int, x': int, z': int, e: int, f: int, g: int, e': int, f': int, g': int)
    requires Eq(cv, x, 4 * (e * f)) && Eq(cv, z, 4 * (f * g)) && Eq(cv, x', 4 * (e' * f')) && Eq(cv, z', 4 * (f' * g'))
    requires Nil(cv, e * g' - e' * g)
    ensures Nil(cv, x * z' - x' * z)
  {
    CongMul(x, 4 * (e * f), z', 4 * (f' * g'), cv.p);
    CongMul(x', 4 * (e' * f'), z, 4 * (f * g), cv.p);
    var s, s' := (4 * (e * f)) * (4 * (f' * g')), (4 * (e' * f')) * (4 * (f * g));
    assert s == (16 * (f * f')) * (e * g') by {
      MulCross(4, e * f, 4, f' * g');
      MulCross(f, e, f', g');
    }
    assert s' == (16 * (f * f')) * (e' * g) by {
      MulCross(4, e' * f', 4, f * g);
      MulCross(f', e', f, g);
    }
    Nil3(cv, x * z' - s, 1, x' * z - s', -1, e * g' - e' * g, 16 * (f * f'), x * z' - x' * z);
  }

  lemma AddRespectsBoth(cv: Curve, p: Point, p': Point, q: Point, q': Point)
    requires Good(cv) && Valid(cv, p) && Valid(cv, p') && Valid(cv, q) && Valid(cv, q')
    requires PointEqual(cv, p, p') && PointEqual(cv, q, q')
    ensures PointEqual(cv, PointAdd(cv, p, q), PointAdd(cv, p', q'))
  {
    AddRespectsEqual(cv, p, p', q);
    AddRespectsEqual(cv, q, q', p');
    AddCommutes(cv, q, p');
    AddCommutes(cv, q', p');
    AddValid(cv, p', q);
    EqualTrans(cv, PointAdd(cv, p, q), PointAdd(cv, p', q), PointAdd(cv, p', q'));
  }
}
