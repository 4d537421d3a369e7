/** The constants of edwards25519. Everything about the curve follows from the
    primality of FIELD and the associativity of the addition law. */
module Ed25519 {
  import opened Sequences
  import opened PrimeField
  import opened EdwardsField
  import opened EdwardsPoints
  import opened PointCodec

  /** 2^255 - 19 */
  const FIELD: nat := 57896044618658097711785492504343953926634992332820282019728792003956564819949

  /** 2^252 + 27742317777372353535851937790883648493 */
  const ORDER: nat := 7237005577332262213973186563042994240857116359379907606001950938285454250989

  /** 2^255 */
  const TOP: nat := 57896044618658097711785492504343953926634992332820282019728792003956564819968

  /** A square root of -1. */
  const I: nat := 19681161376707505956807079304988542015446066515923890162744021073123829784752

  /** A square root of 2D. */
  const ROOT_2D: nat := 55487632915927625549282413919184614932259505768049324239291840100650878933168

  /** D reduced to a numeral. */
  const D_VALUE: nat := 37095705934669439343138083508754565189542113879843219016388785533085940283555

  /** -121665 / 121666 */
  function D(): nat {
    (-121665 * (Pow(121666, FIELD - 2) % FIELD)) % FIELD
  }

  function Curve25519(d: nat): Curve {
    Constants(FIELD, d, ORDER, 32, TOP, I, ROOT_2D)
  }

  lemma Numerals()
    ensures (121666 * D_VALUE + 121665) % FIELD == 0
    ensures (I * I + 1) % FIELD == 0
    ensures (ROOT_2D * ROOT_2D - 2 * D_VALUE) % FIELD == 0
    ensures FIELD % 8 == 5 && FIELD < TOP && ORDER % 2 == 1
    ensures D_VALUE % FIELD != 0
  {
  }

  lemma EncodingSize()
    ensures Pow256(32) == 2 * TOP
  {
    assert Pow256(8) == 0x1_0000_0000_0000_0000;
    assert Pow256(16) == 0x1_0000_0000_0000_0000_0000_0000_0000_0000;
    assert Pow256(24) == 0x1_0000_0000_0000_0000_0000_0000_0000_0000_0000_0000_0000_0000;
  }

  lemma DIsNumeral()
    requires IsPrime(FIELD)
    ensures D() == D_VALUE
  {
    var cv := Curve25519(0);
    Numerals();
    SmallNonZero(121666, FIELD);
    Quotient(cv, -121665, 121666);
    var d := D();
    CongSym(121666 * D_VALUE, -121665, FIELD);
    CongTrans(121666 * d, -121665, 121666 * D_VALUE, FIELD);
    Cancel(121666, d, D_VALUE, FIELD);
    CongSmall(d, D_VALUE, FIELD);
  }

  /** The hypotheses of the curve theorems hold of edwards25519 once FIELD is prime; in
      particular D is not a square. */
  lemma Curve25519Encodable()
    requires IsPrime(FIELD)
    ensures Encodable(Curve25519(D()))
    ensures 0 < ORDER <= Pow256(32)
  {
    Numerals();
    DIsNumeral();
    EncodingSize();
  }

  // ----- the base point

  const BASE_X: nat := 15112221349535400772501151409588531511454012693041857206046113283949847762202
  const BASE_Y: nat := 46316835694926478169428394003475163141307993866256225615783033603165251855960

  /** The point with y = 4/5 and even x. */
  function BasePoint(cv: Curve): Option<Point> {
    var y := (4 * Inverse(cv, 5)) % cv.p;
    match RecoverX(cv, y, 0)
    case None => None
    case Some(x) => Some(AffinePoint(cv, x, y))
  }

  lemma BaseNumerals()
    ensures (5 * BASE_Y - 4) % FIELD == 0
    ensures ((BASE_Y * BASE_Y - BASE_X * BASE_X) - (1 + D_VALUE * ((BASE_X * BASE_X) * (BASE_Y * BASE_Y)))) % FIELD == 0
    ensures BASE_X % 2 == 0 && BASE_X < FIELD && BASE_Y < FIELD
  {
  }

  /** Recovery succeeds on the base point, which is the valid point with these coordinates. */
  lemma BasePointIs()
    requires IsPrime(FIELD)
    ensures var cv := Curve25519(D());
            BasePoint(cv) == Some(AffinePoint(cv, BASE_X, BASE_Y)) && Valid(cv, AffinePoint(cv, BASE_X, BASE_Y))
  {
    DIsNumeral();
    Curve25519Encodable();
    var cv := Curve25519(D());
    BaseYIs(cv);
    BaseNumerals();
    RecoverXFinds(cv, BASE_X, BASE_Y);
    AffinePointValid(cv, BASE_X, BASE_Y);
  }

  lemma BaseYIs(cv: Curve)
    requires IsPrime(FIELD) && cv.p == FIELD
    ensures (4 * Inverse(cv, 5)) % cv.p == BASE_Y
  {
    var y := (4 * Inverse(cv, 5)) % cv.p;
    BaseNumerals();
    SmallNonZero(5, FIELD);
    Quotient(cv, 4, 5);
    CongSym(5 * BASE_Y, 4, FIELD);
    CongTrans(5 * y, 4, 5 * BASE_Y, FIELD);
    Cancel(5, y, BASE_Y, FIELD);
    CongSmall(y, BASE_Y, FIELD);
  }
}
