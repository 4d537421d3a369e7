/** Point encoding and decoding (RFC 8032, sections 5.1.2 and 5.1.3). */
module PointCodec {
  import opened Sequences
  import opened PrimeField
  import opened EdwardsField
  import opened EdwardsPoints
  import opened EdwardsGroup
  import opened ScalarMultiplication

  type Byte = b: nat | b < 256

  // ----- little-endian integers

  function FromLittleEndian(bytes: seq<Byte>): nat {
    if bytes == [] then 0 else bytes[0] + 256 * FromLittleEndian(bytes[1..])
  }

  function ToLittleEndian(value: nat, length: nat): (r: seq<Byte>)
    ensures |r| == length
  {
    if length == 0 then [] else [value % 256] + ToLittleEndian(value / 256, length - 1)
  }

  function Pow256(n: nat): nat {
    if n == 0 then 1 else 256 * Pow256(n - 1)
  }

  lemma LowByte(b: nat, rest: nat, bound: nat)
    requires b < 256
    ensures (b + 256 * rest) % 256 == b && (b + 256 * rest) / 256 == rest
    ensures rest < bound ==> b + 256 * rest < 256 * bound
  {
  }

  lemma {:induction false} LittleEndianRoundTrip(bytes: seq<Byte>)
    ensures ToLittleEndian(FromLittleEndian(bytes), |bytes|) == bytes
    ensures FromLittleEndian(bytes) < Pow256(|bytes|)
  {
    if bytes != [] {
      var rest := bytes[1..];
      LittleEndianRoundTrip(rest);
      LowByte(bytes[0], FromLittleEndian(rest), Pow256(|rest|));
      assert [bytes[0]] + rest == bytes;
    }
  }

  lemma {:induction false} LittleEndianValue(value: nat, length: nat)
    requires value < Pow256(length)
    ensures FromLittleEndian(ToLittleEndian(value, length)) == value
  {
    if length > 0 {
      LittleEndianValue(value / 256, length - 1);
      assert ToLittleEndian(value, length)[1..] == ToLittleEndian(value / 256, length - 1);
    }
  }

  // ----- recovering x

  /** x^2 from y on the curve: (y^2 - 1) / (D y^2 + 1). */
  function XSquared(cv: Curve, y: int): (r: nat)
    ensures r < cv.p
  {
    ((y * y - 1) * Inverse(cv, cv.d * y * y + 1)) % cv.p
  }

  /** The candidate root or, failing that, the candidate times a square root of -1. */
  function PickRoot(cv: Curve, first: nat, xx: nat): (r: Option<nat>)
    requires first < cv.p
    ensures r.Some? ==> r.value < cv.p && Eq(cv, r.value * r.value, xx)
  {
    var x := if (first * first - xx) % cv.p != 0 then (first * SqrtM1(cv)) % cv.p else first;
    if (x * x - xx) % cv.p != 0 then None else Some(x)
  }

  function SquareRoot(cv: Curve, xx: nat): (r: Option<nat>)
    ensures r.Some? ==> r.value < cv.p && Eq(cv, r.value * r.value, xx)
  {
    PickRoot(cv, Pow(xx, (cv.p + 3) / 8) % cv.p, xx)
  }

  /** Of a root and its negation, the one with the requested lowest bit. */
  function ChooseSign(cv: Curve, root: nat, sign: nat): nat
    requires root < cv.p
  {
    if root % 2 != sign then cv.p - root else root
  }

  function RecoverX(cv: Curve, y: int, sign: nat): Option<nat> {
    match SquareRoot(cv, XSquared(cv, y))
    case None => None
    case Some(root) =>
      var x := ChooseSign(cv, root, sign);
      if x == 0 && sign != 0 then None else Some(x)
  }

  // ----- decoding and encoding

  function AffinePoint(cv: Curve, x: int, y: int): Point {
    Point(x, y, 1, (x * y) % cv.p)
  }

  /** A non-identity point whose multiple by cv.order is the identity. */
  predicate InPrimeSubgroup(cv: Curve, p: Point) {
    !PointEqual(cv, p, IDENTITY) && PointEqual(cv, ScalarMult(cv, p, cv.order), IDENTITY)
  }

  /** The x coordinate that an encoded integer stands for. */
  function DecodeX(cv: Curve, value: nat): Option<nat> {
    if value % cv.top >= cv.p then None else RecoverX(cv, value % cv.top, value / cv.top)
  }

  function DecodePoint(cv: Curve, encoded: seq<Byte>): Option<Point> {
    if |encoded| != cv.length then None
    else
      var value := FromLittleEndian(encoded);
      match DecodeX(cv, value)
      case None => None
      case Some(x) =>
        var point := AffinePoint(cv, x, value % cv.top);
        if InPrimeSubgroup(cv, point) then Some(point) else None
  }

  function AffineX(cv: Curve, p: Point): (r: nat)
    ensures r < cv.p
  {
    (p.x * Inverse(cv, p.z)) % cv.p
  }

  function AffineY(cv: Curve, p: Point): (r: nat)
    ensures r < cv.p
  {
    (p.y * Inverse(cv, p.z)) % cv.p
  }

  function EncodePoint(cv: Curve, p: Point): (r: seq<Byte>)
    ensures |r| == cv.length
  {
    ToLittleEndian(AffineY(cv, p) + (AffineX(cv, p) % 2) * cv.top, cv.length)
  }

  // ----- the curve equation in affine form

  ghost predicate OnAffineCurve(cv: Curve, x: int, y: int) {
    Eq(cv, y * y - x * x, 1 + cv.d * ((x * x) * (y * y)))
  }

  /** D y^2 + 1 never vanishes, because -1 is a square and D is not. */
  lemma DenominatorNonNil(cv: Curve, y: int)
    requires Good(cv)
    ensures !Nil(cv, cv.d * y * y + 1)
  {
    var d, i := cv.d, cv.i;
    MulSwap(d, y, y);
    if Nil(cv, d * y * y + 1) {
      Nil2(cv, i * i - (-1), 1, d * y * y + 1, -1, i * i - d * (y * y));
      DIsNonSquare(cv, i, y);
      Nil2(cv, i, i, i * i - (-1), -1, -1);
      Nil1(cv, -1, -1, 1);
      SmallNonNil(cv, 1);
    }
  }

  /** Dividing by m: x^2 = n/m exactly when n - m x^2 vanishes, given that m q = n. */
  lemma QuotientIs(cv: Curve, square: int, q: int, n: int, m: int)
    requires IsPrime(cv.p) && !Nil(cv, m) && Eq(cv, m * q, n)
    ensures Eq(cv, square, q) <==> Nil(cv, n - m * square)
  {
    Dist(m, square, q);
    var defect := n - m * square;
    if Eq(cv, square, q) {
      Nil2(cv, m * q - n, -1, square - q, -m, defect);
    }
    if Nil(cv, defect) {
      Nil2(cv, defect, -1, m * q - n, -1, m * (square - q));
      Euclid(m, square - q, cv.p);
    }
  }

  /** x^2 is XSquared(cv, y) exactly for the points of the curve. */
  lemma XSquaredIsCurve(cv: Curve, x: int, y: int)
    requires Good(cv)
    ensures Eq(cv, x * x, XSquared(cv, y)) <==> OnAffineCurve(cv, x, y)
  {
    var n, m := y * y - 1, cv.d * y * y + 1;
    DenominatorNonNil(cv, y);
    Quotient(cv, n, m);
    QuotientIs(cv, x * x, XSquared(cv, y), n, m);
    DefectExact(cv.d, x, y);
  }

  lemma DefectExact(d: int, x: int, y: int)
    ensures (y * y - x * x) - (1 + d * ((x * x) * (y * y))) == (y * y - 1) - (d * y * y + 1) * (x * x)
  {
    MulSwap(d, y, y);
    Dist(x * x, d * y * y, 1);
    MulSwap(d, y * y, x * x);
  }

  lemma AffinePointValid(cv: Curve, x: int, y: int)
    requires Good(cv) && OnAffineCurve(cv, x, y)
    ensures Valid(cv, AffinePoint(cv, x, y))
  {
    var d, p := cv.d, AffinePoint(cv, x, y);
    CongMod(x * y, cv.p);
    SmallNonNil(cv, 1);
    Nil1(cv, x * y - p.t, 1, x * y - 1 * p.t);
    CongMul(p.t, x * y, p.t, x * y, cv.p);
    MulCross(x, y, x, y);
    var h1, h2 := (y * y - x * x) - (1 + d * ((x * x) * (y * y))), p.t * p.t - (x * x) * (y * y);
    assert d * h2 == d * (p.t * p.t) - d * ((x * x) * (y * y));
    Nil2(cv, h1, 1, h2, -d, (y * y - x * x) - (1 * 1 + d * (p.t * p.t)));
  }

  // ----- the square root is found whenever it exists

  lemma FourthPower(cv: Curve, a: int)
    requires cv.p % 8 == 5
    ensures var w := Pow(a, (cv.p + 3) / 8) * Pow(a, (cv.p + 3) / 8);
            w * w == Pow(a, (cv.p - 1) / 2) * (a * a)
  {
    var k, m := (cv.p + 3) / 8, (cv.p - 1) / 2;
    PowAdd(a, k, k);
    PowAdd(a, k + k, k + k);
    PowAdd(a, m, 2);
    assert (k + k) + (k + k) == m + 2;
    assert Pow(a, 2) == a * Pow(a, 1) && Pow(a, 1) == a * Pow(a, 0);
  }

  /** cv.p is 5 modulo 8: a^((p+3)/8) squared is a or -a when a is a square. */
  lemma CandidateRoot(cv: Curve, a: int, c: int)
    requires Good(cv) && Eq(cv, c * c, a)
    ensures var x := Pow(a, (cv.p + 3) / 8);
            Eq(cv, x * x, a) || Eq(cv, x * x, -a)
  {
    var x := Pow(a, (cv.p + 3) / 8);
    FourthPower(cv, a);
    RootOfSquare(cv, a, c, x * x, Pow(a, (cv.p - 1) / 2));
  }

  lemma RootOfSquare(cv: Curve, a: int, c: int, w: int, u: int)
    requires Good(cv) && Eq(cv, c * c, a) && u == Pow(a, (cv.p - 1) / 2) && w * w == u * (a * a)
    ensures Eq(cv, w, a) || Eq(cv, w, -a)
  {
    Foil(w, a, w, a);
    if Nil(cv, a) {
      MulSwap(u, a, a);
      Nil1(cv, a, u * a, w * w);
      Euclid(w, w, cv.p);
      Nil2(cv, w, 1, a, -1, w - a);
    } else {
      SquareIsResidue(cv, a, c);
      Dist(a * a, u, 1);
      Nil1(cv, u - 1, a * a, (w - a) * (w + a));
      Euclid(w - a, w + a, cv.p);
      assert w - (-a) == w + a;
    }
  }

  lemma SquareIsResidue(cv: Curve, a: int, c: int)
    requires Good(cv) && Eq(cv, c * c, a) && !Nil(cv, a)
    ensures Eq(cv, Pow(a, (cv.p - 1) / 2), 1)
  {
    var m := (cv.p - 1) / 2;
    if Nil(cv, c) {
      ZeroMul(c, c, cv.p);
      Nil2(cv, c * c, 1, c * c - a, -1, a);
      assert false;
    }
    SquareResidue(cv, c);
    PowCong(c * c, a, m, cv.p);
    var u, v := Pow(a, m), Pow(c * c, m);
    Nil2(cv, v - 1, 1, v - u, -1, u - 1);
  }

  lemma PickRootComplete(cv: Curve, first: nat, xx: nat)
    requires Good(cv) && first < cv.p
    requires Eq(cv, first * first, xx) || Eq(cv, first * first, -(xx as int))
    ensures PickRoot(cv, first, xx).Some?
  {
    if !Eq(cv, first * first, xx) {
      SqrtM1Squared(cv);
      RootTimesI(cv, first, SqrtM1(cv), xx);
    }
  }

  lemma SquareRootComplete(cv: Curve, xx: nat, c: int)
    requires Good(cv) && Eq(cv, c * c, xx)
    ensures SquareRoot(cv, xx).Some?
  {
    var w, a: int := Pow(xx, (cv.p + 3) / 8), xx;
    var first := w % cv.p;
    CandidateRoot(cv, a, c);
    CongMod(w, cv.p);
    CongMul(first, w, first, w, cv.p);
    if Eq(cv, w * w, a) {
      CongTrans(first * first, w * w, a, cv.p);
    } else {
      CongTrans(first * first, w * w, -a, cv.p);
    }
    PickRootComplete(cv, first, xx);
  }

  lemma RootTimesI(cv: Curve, first: int, s: int, xx: int)
    requires Eq(cv, first * first, -xx) && Eq(cv, s * s, -1)
    ensures var x := (first * s) % cv.p; Eq(cv, x * x, xx)
  {
    var x := (first * s) % cv.p;
    CongMod(first * s, cv.p);
    CongMul(x, first * s, x, first * s, cv.p);
    CongMul(first * first, -xx, s * s, -1, cv.p);
    MulCross(first, s, first, s);
    assert (-xx) * (-1) == xx;
    CongTrans(x * x, (first * s) * (first * s), xx, cv.p);
  }

  lemma ChooseSignRoot(cv: Curve, root: nat, sign: nat, xx: nat)
    requires cv.p % 2 == 1 && root < cv.p && sign < 2 && Eq(cv, root * root, xx)
    ensures var x := ChooseSign(cv, root, sign);
            && Eq(cv, x * x, xx) && x <= cv.p && x % 2 == sign
            && (x == 0 ==> sign == 0) && (x == cv.p ==> sign == 1 && root == 0)
  {
    OtherRoot(cv, root, xx);
  }

  lemma OtherRoot(cv: Curve, root: nat, xx: nat)
    requires cv.p > 0 && Eq(cv, root * root, xx)
    ensures Eq(cv, (cv.p - root) * (cv.p - root), xx)
  {
    FieldMinus(cv, root);
    MultipleIsZero(cv.p - 2 * root, cv.p);
    var square := (cv.p - root) * (cv.p - root);
    Nil2(cv, root * root - xx, 1, (cv.p - 2 * root) * cv.p, 1, square - xx);
  }

  /** Recovery fails exactly when no point of the curve has this y. */
  lemma RecoverXDecides(cv: Curve, y: int, sign: nat)
    requires Good(cv) && sign < 2
    ensures RecoverX(cv, y, sign).Some? <==> exists x :: OnAffineCurve(cv, x, y)
    ensures RecoverX(cv, y, sign).Some? ==>
              var x := RecoverX(cv, y, sign).value;
              OnAffineCurve(cv, x, y) && x <= cv.p && x % 2 == sign && (x == cv.p ==> sign == 1)
  {
    var xx := XSquared(cv, y);
    var found := SquareRoot(cv, xx);
    if found.Some? {
      ChooseSignRoot(cv, found.value, sign, xx);
      XSquaredIsCurve(cv, ChooseSign(cv, found.value, sign), y);
    } else if c :| OnAffineCurve(cv, c, y) {
      XSquaredIsCurve(cv, c, y);
      SquareRootComplete(cv, xx, c);
    }
  }

  lemma FieldMinus(cv: Curve, root: int)
    ensures (cv.p - root) * (cv.p - root) - root * root == (cv.p - 2 * root) * cv.p
  {
    var f := cv.p;
    assert (f - root) * (f - root) == f * f - 2 * (f * root) + root * root;
  }

  // ----- which encodings are rejected

  lemma OrderTwoExact(x: int, y: int, z: int, t: int, d: int)
    ensures (y * y + x * x) - (z * z - d * (t * t)) == x * x + (y - z) * (y - (-z)) + (d * t) * t
  {
    MulSwap(d, t, t);
    assert (y - z) * (y - (-z)) == y * y - z * z;
  }

  lemma OrderTwoX(cv: Curve, x: int, y: int, e: int, f: int, rx: int)
    requires Nil(cv, x) && e == x * y + y * x && Eq(cv, rx, 4 * (e * f))
    ensures Nil(cv, rx)
  {
    assert e == (2 * y) * x;
    Nil1(cv, x, 2 * y, e);
    assert 4 * (e * f) == (4 * f) * e;
    Nil2(cv, rx - 4 * (e * f), 1, e, 4 * f, rx);
  }

  lemma OrderTwoYZ(cv: Curve, f: int, g: int, h: int, ry: int, rz: int)
    requires Nil(cv, h - f) && Eq(cv, ry, 4 * (g * h)) && Eq(cv, rz, 4 * (f * g))
    ensures Nil(cv, ry - rz)
  {
    assert (4 * g) * (h - f) == 4 * (g * h) - 4 * (f * g);
    Nil3(cv, ry - 4 * (g * h), 1, rz - 4 * (f * g), -1, h - f, 4 * g, ry - rz);
  }

  /** The point with x = 0 and y = -1 has order two. */
  lemma OrderTwo(cv: Curve, p: Point)
    requires Good(cv) && Valid(cv, p) && Nil(cv, p.x) && Eq(cv, p.y, -p.z)
    ensures PointEqual(cv, PointAdd(cv, p, p), IDENTITY)
  {
    var r := PointAdd(cv, p, p);
    var e, f, g, h := SumE(cv, p, p), SumF(cv, p, p), SumG(cv, p, p), SumH(cv, p, p);
    AddCoordinates(cv, p, p);
    OrderTwoX(cv, p.x, p.y, e, f, r.x);
    OrderTwoDifference(cv, p);
    OrderTwoYZ(cv, f, g, h, r.y, r.z);
  }

  /** T is 0, so F = Z^2 = Y^2 = H. */
  lemma OrderTwoDifference(cv: Curve, p: Point)
    requires Good(cv) && Valid(cv, p) && Nil(cv, p.x) && Eq(cv, p.y, -p.z)
    ensures Nil(cv, SumH(cv, p, p) - SumF(cv, p, p))
  {
    Nil2(cv, p.x, p.y, p.x * p.y - p.z * p.t, -1, p.z * p.t);
    Euclid(p.z, p.t, cv.p);
    OrderTwoExact(p.x, p.y, p.z, p.t, cv.d);
    Nil3(cv, p.x, p.x, p.y - (-p.z), p.y - p.z, p.t, cv.d * p.t, SumH(cv, p, p) - SumF(cv, p, p));
  }

  lemma YSquaredIsOne(cv: Curve, x: int, y: int)
    requires OnAffineCurve(cv, x, y) && Nil(cv, x)
    ensures Nil(cv, (y - 1) * (y + 1))
  {
    var defect := (y * y - x * x) - (1 + cv.d * ((x * x) * (y * y)));
    var w := cv.d * (x * (y * y));
    assert cv.d * ((x * x) * (y * y)) == w * x by {
      MulSwap(x, x, y * y);
      MulSwap(cv.d, x * (y * y), x);
    }
    Foil(y, 1, y, 1);
    Dist(x, x, w);
    Nil2(cv, defect, 1, x, x + w, (y - 1) * (y + 1));
  }

  /** No encoding with x = 0 is accepted, whichever multiple of p stands for x. */
  lemma ZeroXRejected(cv: Curve, x: int, y: int)
    requires Good(cv) && OnAffineCurve(cv, x, y) && Nil(cv, x)
    ensures !InPrimeSubgroup(cv, AffinePoint(cv, x, y))
  {
    var p := AffinePoint(cv, x, y);
    AffinePointValid(cv, x, y);
    YSquaredIsOne(cv, x, y);
    Euclid(y - 1, y + 1, cv.p);
    if !Nil(cv, y - 1) {
      OrderTwo(cv, p);
      OddMultipleOfOrderTwo(cv, p, cv.order);
      ScalarMultValid(cv, p, cv.order);
      var n := ScalarMult(cv, p, cv.order);
      EqualSym(cv, n, p);
      if PointEqual(cv, n, IDENTITY) { EqualTrans(cv, p, n, IDENTITY); }
    }
  }

  /** When x = 0 fits y, recovery yields 0 for sign 0 and p itself for sign 1: its own test for x = 0
      with sign 1 rejects neither. */
  lemma ZeroRecovered(cv: Curve, y: int)
    requires Good(cv) && OnAffineCurve(cv, 0, y)
    ensures RecoverX(cv, y, 0) == Some(0) && RecoverX(cv, y, 1) == Some(cv.p)
  {
    var xx := XSquared(cv, y);
    XSquaredIsCurve(cv, 0, y);
    SquareRootComplete(cv, xx, 0);
    var root := SquareRoot(cv, xx).value;
    CongSym(0 * 0, xx, cv.p);
    CongTrans(root * root, xx, 0, cv.p);
    Euclid(root, root, cv.p);
    if root != 0 {
      SmallNonZero(root, cv.p);
    }
  }

  /** Every encoding whose y fits x = 0 is rejected, with either sign. */
  lemma ZeroEncodingRejected(cv: Curve, encoded: seq<Byte>)
    requires Encodable(cv) && OnAffineCurve(cv, 0, FromLittleEndian(encoded) % cv.top)
    ensures DecodePoint(cv, encoded).None?
  {
    if |encoded| == cv.length {
      var value := FromLittleEndian(encoded);
      var y := value % cv.top;
      LittleEndianRoundTrip(encoded);
      SplitTop(value, cv.top);
      ZeroRecovered(cv, y);
      ZeroXRejected(cv, 0, y);
      OnCurveAtP(cv, y);
      ZeroXRejected(cv, cv.p, y);
    }
  }

  lemma OnCurveAtP(cv: Curve, y: int)
    requires Good(cv) && OnAffineCurve(cv, 0, y)
    ensures OnAffineCurve(cv, cv.p, y) && Nil(cv, cv.p) && Nil(cv, 0)
  {
    MultipleIsZero(1, cv.p);
    MultipleIsZero(0, cv.p);
    XSquaredIsCurve(cv, 0, y);
    XSquaredIsCurve(cv, cv.p, y);
    MultipleIsZero(cv.p, cv.p);
    CongTrans(cv.p * cv.p, 0, XSquared(cv, y), cv.p);
  }

  // ----- encoding undoes decoding

  lemma EncodeAffine(cv: Curve, x: nat, y: nat)
    requires Good(cv) && x < cv.p && y < cv.p
    ensures AffineX(cv, AffinePoint(cv, x, y)) == x && AffineY(cv, AffinePoint(cv, x, y)) == y
  {
    PowOne(cv.p - 2);
    ModSmall(1, cv.p);
    ModSmall(x, cv.p);
    ModSmall(y, cv.p);
  }

  /** The encoding of the identity is rejected. */
  lemma IdentityRejected(cv: Curve, p: Point)
    requires Encodable(cv) && Valid(cv, p) && PointEqual(cv, p, IDENTITY)
    ensures DecodePoint(cv, EncodePoint(cv, p)).None?
  {
    IdentityValid(cv);
    EncodeRespectsEqual(cv, p, IDENTITY);
    assert AffinePoint(cv, 0, 1) == IDENTITY by {
      ModSmall(0, cv.p);
    }
    EncodeAffine(cv, 0, 1);
    EncodedValue(cv, 0, 1);
    assert OnAffineCurve(cv, 0, 1) by {
      MultipleIsZero(0, cv.p);
    }
    ZeroEncodingRejected(cv, EncodePoint(cv, p));
  }

  ghost predicate Encodable(cv: Curve) {
    Good(cv) && Pow256(cv.length) == 2 * cv.top
  }

  lemma SplitTop(value: nat, top: nat)
    requires top > 0 && value < 2 * top
    ensures 0 <= value / top < 2 && value == value % top + (value / top) * top
  {
    var q, r := value / top, value % top;
    assert value == top * q + r;
    assert top * q == top * (q - 1) + top;
    MultipleSpread(q - 1, top);
  }

  lemma SplitTopAs(value: nat, top: nat, s: nat)
    requires top > 0 && value < 2 * top && value / top == s
    ensures value == value % top + s * top
  {
    SplitTop(value, top);
  }

  lemma DecodedX(cv: Curve, value: nat)
    requires Good(cv) && value < 2 * cv.top && DecodeX(cv, value).Some?
    ensures var x, y := DecodeX(cv, value).value, value % cv.top;
            && y < cv.p && OnAffineCurve(cv, x, y) && x <= cv.p
            && value == y + (x % 2) * cv.top
  {
    SplitTop(value, cv.top);
    var y, sign := value % cv.top, value / cv.top;
    RecoverXDecides(cv, y, sign);
    var x := RecoverX(cv, y, sign).value;
    SplitTopAs(value, cv.top, x % 2);
  }

  /** An accepted encoding is the little-endian (y, lowest bit of x) of its point, with 0 < x < p. */
  lemma DecodedPoint(cv: Curve, encoded: seq<Byte>) returns (x: nat, y: nat)
    requires Encodable(cv) && DecodePoint(cv, encoded).Some?
    ensures 0 < x < cv.p && y < cv.p && OnAffineCurve(cv, x, y)
    ensures |encoded| == cv.length && FromLittleEndian(encoded) == y + (x % 2) * cv.top
    ensures DecodePoint(cv, encoded).value == AffinePoint(cv, x, y)
  {
    var value := FromLittleEndian(encoded);
    LittleEndianRoundTrip(encoded);
    DecodedX(cv, value);
    x, y := DecodeX(cv, value).value, value % cv.top;
    if x == 0 || x == cv.p {
      MultipleIsZero(0, cv.p);
      MultipleIsZero(1, cv.p);
      ZeroXRejected(cv, x, y);
    }
  }

  /** Encoding an accepted point gives back the bytes it came from. */
  lemma EncodeDecode(cv: Curve, encoded: seq<Byte>)
    requires Encodable(cv) && DecodePoint(cv, encoded).Some?
    ensures EncodePoint(cv, DecodePoint(cv, encoded).value) == encoded
  {
    var x, y := DecodedPoint(cv, encoded);
    EncodeAffine(cv, x, y);
    LittleEndianRoundTrip(encoded);
  }

  // ----- encoding depends only on the point, not on its coordinates

  lemma AffineXTimesZ(cv: Curve, p: Point)
    requires Good(cv) && !Nil(cv, p.z)
    ensures Eq(cv, p.z * AffineX(cv, p), p.x) && Eq(cv, p.z * AffineY(cv, p), p.y)
  {
    Quotient(cv, p.x, p.z);
    Quotient(cv, p.y, p.z);
  }

  lemma SameRatioExact(a: int, x: int, z: int, a': int, x': int, z': int)
    ensures (z * z') * a - (z * z') * a' == z' * (z * a - x) + (-z) * (z' * a' - x') + 1 * (x * z' - x' * z)
  {
    MulSwap(z', z, a);
    MulSwap(z, z', a');
    assert z' * (z * a - x) == z' * (z * a) - z' * x;
    assert (-z) * (z' * a' - x') == -(z * (z' * a')) + z * x';
  }

  lemma SameRatio(cv: Curve, a: nat, x: int, z: int, a': nat, x': int, z': int)
    requires Good(cv) && !Nil(cv, z) && !Nil(cv, z') && a < cv.p && a' < cv.p
    requires Eq(cv, z * a, x) && Eq(cv, z' * a', x') && Nil(cv, x * z' - x' * z)
    ensures a == a'
  {
    var zz := z * z';
    SameRatioExact(a, x, z, a', x', z');
    Nil3(cv, z * a - x, z', z' * a' - x', -z, x * z' - x' * z, 1, zz * a - zz * a');
    NonZeroMul(z, z', cv.p);
    Cancel(zz, a, a', cv.p);
    CongSmall(a, a', cv.p);
  }

  lemma EncodeRespectsEqual(cv: Curve, p: Point, q: Point)
    requires Good(cv) && Valid(cv, p) && Valid(cv, q) && PointEqual(cv, p, q)
    ensures EncodePoint(cv, p) == EncodePoint(cv, q)
  {
    AffineXTimesZ(cv, p);
    AffineXTimesZ(cv, q);
    SameRatio(cv, AffineX(cv, p), p.x, p.z, AffineX(cv, q), q.x, q.z);
    SameRatio(cv, AffineY(cv, p), p.y, p.z, AffineY(cv, q), q.y, q.z);
  }

  /** Different accepted encodings are different points. */
  lemma DecodeInjective(cv: Curve, b: seq<Byte>, b': seq<Byte>)
    requires Encodable(cv) && DecodePoint(cv, b).Some? && DecodePoint(cv, b').Some?
    requires PointEqual(cv, DecodePoint(cv, b).value, DecodePoint(cv, b').value)
    ensures b == b'
  {
    var x, y := DecodedPoint(cv, b);
    var x', y' := DecodedPoint(cv, b');
    AffinePointValid(cv, x, y);
    AffinePointValid(cv, x', y');
    EncodeRespectsEqual(cv, DecodePoint(cv, b).value, DecodePoint(cv, b').value);
    EncodeDecode(cv, b);
    EncodeDecode(cv, b');
  }

  // ----- decoding undoes encoding, up to PointEqual

  lemma AffineOnCurve(cv: Curve, p: Point)
    requires Good(cv) && Valid(cv, p)
    ensures OnAffineCurve(cv, AffineX(cv, p), AffineY(cv, p))
  {
    var x, y, z, t, d := AffineX(cv, p), AffineY(cv, p), p.z, p.t, cv.d;
    AffineXTimesZ(cv, p);
    // T = x y Z
    CongMul(z * x, p.x, z * y, p.y, cv.p);
    MulCross(z, x, z, y);
    MulSwap(z, z, x * y);
    Nil2(cv, (z * x) * (z * y) - p.x * p.y, 1, p.x * p.y - z * t, 1, z * (z * (x * y)) - z * t);
    Cancel(z, z * (x * y), t, cv.p);
    AffineEquation(cv, p, x, y);
  }

  lemma AffineEquation(cv: Curve, p: Point, x: int, y: int)
    requires Good(cv) && Valid(cv, p)
    requires Eq(cv, p.z * x, p.x) && Eq(cv, p.z * y, p.y) && Eq(cv, p.z * (x * y), p.t)
    ensures OnAffineCurve(cv, x, y)
  {
    var z, t, d := p.z, p.t, cv.d;
    var zz, xx, yy := z * z, x * x, y * y;
    CongMul(z * x, p.x, z * x, p.x, cv.p);
    CongMul(z * y, p.y, z * y, p.y, cv.p);
    CongMul(z * (x * y), t, z * (x * y), t, cv.p);
    MulCross(z, x, z, x);
    MulCross(z, y, z, y);
    MulCross(z, x * y, z, x * y);
    MulCross(x, y, x, y);
    var h1, h2, h3 := zz * xx - p.x * p.x, zz * yy - p.y * p.y, zz * (xx * yy) - t * t;
    var h := (p.y * p.y - p.x * p.x) - (zz + d * (t * t));
    var defect := (yy - xx) - (1 + d * (xx * yy));
    assert zz * defect == zz * yy - zz * xx - zz - d * (zz * (xx * yy)) by { MulSwap(zz, d, xx * yy); }
    assert d * h3 == d * (zz * (xx * yy)) - d * (t * t);
    Nil3(cv, h2, 1, h1, -1, h3, -d, h2 - h1 - d * h3);
    Nil2(cv, h, 1, h2 - h1 - d * h3, 1, zz * defect);
    NonZeroMul(z, z, cv.p);
    Euclid(zz, defect, cv.p);
  }

  lemma RootsAgree(cv: Curve, root: nat, x: nat)
    requires Good(cv) && root < cv.p && x < cv.p && Eq(cv, root * root, x * x)
    ensures ChooseSign(cv, root, x % 2) == x
  {
    Foil(root, x, root, x);
    assert (root - x) * (root + x) == root * root - x * x;
    Euclid(root - x, root + x, cv.p);
    if Nil(cv, root - x) {
      CongSmall(root, x, cv.p);
    } else {
      NegatedRoot(cv, root, x);
    }
  }

  /** Recovery with the lowest bit of x finds x itself. */
  lemma RecoverXFinds(cv: Curve, x: nat, y: int)
    requires Good(cv) && x < cv.p && OnAffineCurve(cv, x, y)
    ensures RecoverX(cv, y, x % 2) == Some(x)
  {
    var xx := XSquared(cv, y);
    XSquaredIsCurve(cv, x, y);
    SquareRootComplete(cv, xx, x);
    var root := SquareRoot(cv, xx).value;
    CongSym(x * x, xx, cv.p);
    CongTrans(root * root, xx, x * x, cv.p);
    RootsAgree(cv, root, x);
  }

  lemma NegatedRoot(cv: Curve, root: nat, x: nat)
    requires cv.p % 2 == 1 && root < cv.p && x < cv.p && Nil(cv, root + x) && !Nil(cv, root - x)
    ensures root == cv.p - x && 0 < x && root % 2 != x % 2
  {
    var k := ZeroIsMultiple(root + x, cv.p);
    MultipleSpread(k, cv.p);
    MultipleSpread(k - 2, cv.p);
    assert cv.p * (k - 2) == k * cv.p - 2 * cv.p;
    if k == 0 { MultipleIsZero(0, cv.p); }
  }

  lemma AffineIsEqual(cv: Curve, p: Point)
    requires Good(cv) && !Nil(cv, p.z)
    ensures PointEqual(cv, AffinePoint(cv, AffineX(cv, p), AffineY(cv, p)), p)
  {
    var x, y := AffineX(cv, p), AffineY(cv, p);
    AffineXTimesZ(cv, p);
    Nil1(cv, p.z * x - p.x, 1, x * p.z - p.x * 1);
    Nil1(cv, p.z * y - p.y, 1, y * p.z - p.y * 1);
  }

  /** A point of the prime-order subgroup survives encoding and decoding. */
  lemma DecodeEncode(cv: Curve, p: Point)
    requires Encodable(cv) && Valid(cv, p) && InPrimeSubgroup(cv, p)
    ensures DecodePoint(cv, EncodePoint(cv, p)).Some?
    ensures PointEqual(cv, DecodePoint(cv, EncodePoint(cv, p)).value, p)
  {
    var x, y := AffineX(cv, p), AffineY(cv, p);
    AffineOnCurve(cv, p);
    AffinePointValid(cv, x, y);
    AffineIsEqual(cv, p);
    SubgroupRespectsEqual(cv, AffinePoint(cv, x, y), p);
    DecodeEncodedAffine(cv, x, y);
  }

  lemma DecodeEncodedAffine(cv: Curve, x: nat, y: nat)
    requires Encodable(cv) && x < cv.p && y < cv.p && OnAffineCurve(cv, x, y)
    requires InPrimeSubgroup(cv, AffinePoint(cv, x, y))
    ensures DecodePoint(cv, ToLittleEndian(y + (x % 2) * cv.top, cv.length)) == Some(AffinePoint(cv, x, y))
  {
    RecoverXFinds(cv, x, y);
    EncodedValue(cv, x, y);
    var value := y + (x % 2) * cv.top;
    assert DecodeX(cv, value) == Some(x);
  }

  lemma JoinTop(y: nat, s: nat, top: nat)
    requires y < top && s < 2
    ensures (y + s * top) / top == s && (y + s * top) % top == y
  {
    var value := y + s * top;
    var q, r := value / top, value % top;
    assert value == top * q + r;
    assert r - y == top * (s - q);
    SmallSpread(r, y, s - q, top);
    MultipleSpread(s - q, top);
  }

  lemma EncodedValue(cv: Curve, x: nat, y: nat)
    requires Encodable(cv) && x < cv.p && y < cv.p
    ensures var value := y + (x % 2) * cv.top;
            && FromLittleEndian(ToLittleEndian(value, cv.length)) == value
            && value / cv.top == x % 2 && value % cv.top == y
  {
    var value := y + (x % 2) * cv.top;
    assert value < 2 * cv.top;
    LittleEndianValue(value, cv.length);
    JoinTop(y, x % 2, cv.top);
  }

  lemma SubgroupRespectsEqual(cv: Curve, q: Point, p: Point)
    requires Good(cv) && Valid(cv, q) && Valid(cv, p) && PointEqual(cv, q, p) && InPrimeSubgroup(cv, p)
    ensures InPrimeSubgroup(cv, q)
  {
    var n, m := ScalarMult(cv, q, cv.order), ScalarMult(cv, p, cv.order);
    ScalarMultRespectsEqual(cv, q, p, cv.order);
    ScalarMultValid(cv, p, cv.order);
    EqualTrans(cv, n, m, IDENTITY);
    EqualSym(cv, q, p);
    if PointEqual(cv, q, IDENTITY) { EqualTrans(cv, p, q, IDENTITY); }
  }
}
