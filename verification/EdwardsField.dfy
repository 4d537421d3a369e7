/** The field of a twisted Edwards curve -x^2 + y^2 = 1 + d x^2 y^2 over the
    integers modulo a prime p = 5 (mod 8), and which of its elements are squares. */
module EdwardsField {
  import opened PrimeField

  /** The modulus, the curve constant, the order of the prime subgroup, the number of bytes
      of an encoding and the weight of its top bit; and two roots that certify the field:
      i is a square root of -1 and root2d a square root of 2d. */
  datatype Constants = Constants(p: nat, d: int, order: nat, length: nat, top: nat, i: int, root2d: int)

  type Curve = cv: Constants | cv.p > 0 && cv.top > 0 witness Constants(1, 0, 0, 0, 1, 0, 0)

  predicate Nil(cv: Curve, a: int) { Zero(a, cv.p) }

  predicate Eq(cv: Curve, a: int, b: int) { Cong(a, b, cv.p) }

  ghost predicate Certified(cv: Curve) {
    && cv.p % 8 == 5
    && cv.p <= cv.top
    && cv.order % 2 == 1
    && Eq(cv, cv.i * cv.i, -1)
    && Eq(cv, cv.root2d * cv.root2d, 2 * cv.d)
    && !Nil(cv, cv.d)
  }

  ghost predicate Good(cv: Curve) {
    IsPrime(cv.p) && Certified(cv)
  }

  /** `pow(value, p - 2, p)` */
  function Inverse(cv: Curve, value: int): (r: nat)
    ensures r < cv.p
  {
    if cv.p < 2 then 0 else Pow(value, cv.p - 2) % cv.p
  }

  /** `pow(2, (p - 1) // 4, p)` */
  function SqrtM1(cv: Curve): (r: nat)
    ensures r < cv.p
  {
    Pow(2, (cv.p - 1) / 4) % cv.p
  }

  // ----- linear combinations of multiples of p

  lemma Nil1(cv: Curve, a: int, c: int, target: int)
    requires Nil(cv, a) && target == c * a
    ensures Nil(cv, target)
  {
    ZeroMul(a, c, cv.p);
  }

  lemma Nil2(cv: Curve, a: int, c: int, b: int, d: int, target: int)
    requires Nil(cv, a) && Nil(cv, b) && target == c * a + d * b
    ensures Nil(cv, target)
  {
    ZeroMul(a, c, cv.p);
    ZeroMul(b, d, cv.p);
    ZeroAdd(c * a, d * b, cv.p);
  }

  lemma Nil3(cv: Curve, a: int, c: int, b: int, d: int, a': int, c': int, target: int)
    requires Nil(cv, a) && Nil(cv, b) && Nil(cv, a') && target == c * a + d * b + c' * a'
    ensures Nil(cv, target)
  {
    Nil2(cv, a, c, b, d, c * a + d * b);
    Nil2(cv, c * a + d * b, 1, a', c', target);
  }

  /** A number below p and not 0 is not 0 modulo p. */
  lemma SmallNonNil(cv: Curve, a: int)
    requires 0 < a < cv.p
    ensures !Nil(cv, a)
  {
    SmallNonZero(a, cv.p);
  }

  lemma InverseIsInverse(cv: Curve, a: int)
    requires IsPrime(cv.p) && !Nil(cv, a)
    ensures Eq(cv, a * Inverse(cv, a), 1)
  {
    var w := Pow(a, cv.p - 2);
    FermatInverse(a, cv.p);
    CongMod(w, cv.p);
    CongRefl(a, cv.p);
    CongMul(a, a, Inverse(cv, a), w, cv.p);
    CongTrans(a * Inverse(cv, a), a * w, 1, cv.p);
  }

  /** Multiplying by the inverse divides. */
  lemma Quotient(cv: Curve, n: int, d: int)
    requires IsPrime(cv.p) && !Nil(cv, d)
    ensures Eq(cv, d * ((n * Inverse(cv, d)) % cv.p), n)
  {
    var inv := Inverse(cv, d);
    var q := (n * inv) % cv.p;
    InverseIsInverse(cv, d);
    CongMod(n * inv, cv.p);
    assert d * (q - n * inv) == d * q - n * (d * inv) by { MulSwap(d, n, inv); }
    Nil2(cv, q - n * inv, d, d * inv - 1, n, d * q - n);
  }

  // ----- 2 is not a square

  lemma EvenPower(c: int, k: nat)
    ensures Pow(c, 2 * k) == Pow(c * c, k)
  {
    PowMul(c, 2, k);
    assert Pow(c, 2) == c * Pow(c, 1) && Pow(c, 1) == c * Pow(c, 0);
  }

  lemma FiveModEight(p: nat)
    requires p % 8 == 5
    ensures (p - 1) / 2 == 2 * ((p - 1) / 4) && ((p - 1) / 4) % 2 == 1
    ensures 2 * ((p - 1) / 2) == p - 1
  {
  }

  lemma MinusOnePower(cv: Curve, s: int, k: nat)
    requires Eq(cv, s * s, -1) && k % 2 == 1
    ensures Eq(cv, Pow(s, 2 * k), -1)
  {
    PowCong(s * s, -1, k, cv.p);
    PowMinusOne(k);
    EvenPower(s, k);
  }

  lemma IPower(cv: Curve)
    requires Good(cv)
    ensures Eq(cv, Pow(cv.i, (cv.p - 1) / 2), -1)
  {
    FiveModEight(cv.p);
    MinusOnePower(cv, cv.i, (cv.p - 1) / 4);
  }

  lemma OnePlusI(cv: Curve)
    requires Good(cv)
    ensures !Nil(cv, 1 + cv.i)
    ensures Eq(cv, (1 + cv.i) * (1 + cv.i), 2 * cv.i)
  {
    var c, i := 1 + cv.i, cv.i;
    Nil1(cv, i * i - (-1), 1, c * c - 2 * i);
    if Nil(cv, c) {
      // i = -1 would make i^2 both 1 and -1
      Nil2(cv, c, i - 1, i * i - (-1), -1, -2);
      Nil1(cv, -2, -1, 2);
      SmallNonNil(cv, 2);
    }
  }

  /** 2 is not a square: 2i is (1 + i)^2 while i^((p-1)/2) is -1. */
  lemma TwoIsNonResidue(cv: Curve)
    requires Good(cv)
    ensures Eq(cv, Pow(2, (cv.p - 1) / 2), -1)
  {
    var m, c, i := (cv.p - 1) / 2, 1 + cv.i, cv.i;
    OnePlusI(cv);
    PowCong(c * c, 2 * i, m, cv.p);
    PowProduct(2, i, m);
    SquareResidue(cv, c);
    IPower(cv);
    var a, b, w := Pow(2, m), Pow(i, m), Pow(c * c, m);
    Nil3(cv, w - a * b, 1, w - 1, -1, b - (-1), a, a - (-1));
  }

  lemma SqrtM1Squared(cv: Curve)
    requires Good(cv)
    ensures Eq(cv, SqrtM1(cv) * SqrtM1(cv), -1)
  {
    var k := (cv.p - 1) / 4;
    var w, s := Pow(2, k), SqrtM1(cv);
    TwoIsNonResidue(cv);
    PowAdd(2, k, k);
    FiveModEight(cv.p);
    CongMod(w, cv.p);
    CongMul(s, w, s, w, cv.p);
    CongTrans(s * s, w * w, -1, cv.p);
  }

  /** A non-zero square raised to (p-1)/2 is 1. */
  lemma SquareResidue(cv: Curve, c: int)
    requires Good(cv) && !Nil(cv, c)
    ensures Eq(cv, Pow(c * c, (cv.p - 1) / 2), 1)
  {
    var m := (cv.p - 1) / 2;
    EvenPower(c, m);
    Fermat(c, cv.p);
    FiveModEight(cv.p);
  }

  lemma TwoIsNonSquare(cv: Curve, a: int, b: int)
    requires Good(cv) && Eq(cv, b * b, 2 * (a * a))
    ensures Nil(cv, a)
  {
    if !Nil(cv, a) {
      RootOfDoubleNonNil(cv, a, b);
      var m := (cv.p - 1) / 2;
      SquareResidue(cv, a);
      SquareResidue(cv, b);
      TwoIsNonResidue(cv);
      PowCong(b * b, 2 * (a * a), m, cv.p);
      PowProduct(2, a * a, m);
      var s, u, w := Pow(2, m), Pow(a * a, m), Pow(b * b, m);
      // w = s u, u = 1, w = 1, s = -1
      Nil3(cv, w - s * u, -1, w - 1, 1, u - 1, -s, s - 1);
      Nil2(cv, s - 1, -1, s - (-1), 1, 2);
      SmallNonNil(cv, 2);
    }
  }

  lemma RootOfDoubleNonNil(cv: Curve, a: int, b: int)
    requires Good(cv) && Eq(cv, b * b, 2 * (a * a)) && !Nil(cv, a)
    ensures !Nil(cv, b)
  {
    SmallNonNil(cv, 2);
    NonZeroMul(a, a, cv.p);
    NonZeroMul(2, a * a, cv.p);
    if Nil(cv, b) {
      ZeroMul(b, b, cv.p);
      Nil2(cv, b * b, 1, b * b - 2 * (a * a), -1, 2 * (a * a));
    }
  }

  // ----- d is not a square

  /** d is not a square, in homogeneous form: (root2d b)^2 would be 2 a^2. */
  lemma DIsNonSquare(cv: Curve, a: int, b: int)
    requires Good(cv) && Eq(cv, a * a, cv.d * (b * b))
    ensures Nil(cv, b) && Nil(cv, a)
  {
    var r, d := cv.root2d, cv.d;
    var s := r * b;
    MulCross(r, b, r, b);
    Dist(b * b, r * r, 2 * d);
    MulSwap(2, d, b * b);
    Nil2(cv, r * r - 2 * d, b * b, a * a - d * (b * b), -2, s * s - 2 * (a * a));
    TwoIsNonSquare(cv, a, s);
    ZeroMul(a, a, cv.p);
    Nil2(cv, a * a, 1, a * a - d * (b * b), -1, d * (b * b));
    Euclid(d, b * b, cv.p);
    Euclid(b, b, cv.p);
  }
}
