/** Scalar multiplication of curve points, against repeated addition. */
module ScalarMultiplication {
  import opened Sequences
  import opened EdwardsField
  import opened EdwardsPoints
  import opened EdwardsGroup
  import opened DoubleAndAdd

  function Adder(cv: Curve): (Point, Point) -> Point {
    (p, q) => PointAdd(cv, p, q)
  }

  ghost function EdwardsAddition(cv: Curve): Addition<Point> {
    Addition(IDENTITY, Adder(cv), (p, q) => PointEqual(cv, p, q), p => Valid(cv, p))
  }

  /** Associativity of the addition law up to PointEqual. */
  ghost predicate Associative(cv: Curve) {
    forall p, q, r {:trigger PointAdd(cv, PointAdd(cv, p, q), r)} | Valid(cv, p) && Valid(cv, q) && Valid(cv, r) ::
      PointEqual(cv, PointAdd(cv, PointAdd(cv, p, q), r), PointAdd(cv, p, PointAdd(cv, q, r)))
  }

  /** The two facts about the curve taken as hypotheses: its field is a field and its addition associates. */
  ghost predicate GroupLaw(cv: Curve) {
    Good(cv) && Associative(cv)
  }

  function ScalarMult(cv: Curve, point: Point, scalar: nat): Point {
    Ladder(Adder(cv), IDENTITY, point, scalar)
  }

  /** The point added to itself, `n` copies in all. */
  function Repeated(cv: Curve, point: Point, n: nat): Point {
    Times(Adder(cv), IDENTITY, point, n)
  }

  method ComputeScalarMult(cv: Curve, point: Point, scalar: int) returns (r: Option<Point>)
    ensures r.None? <==> scalar < 0
    ensures r.Some? ==> r.value == ScalarMult(cv, point, scalar)
    ensures r.Some? && GroupLaw(cv) && Valid(cv, point) ==> PointEqual(cv, r.value, Repeated(cv, point, scalar))
  {
    if scalar < 0 {
      return None;
    }
    var result, addend, rest: nat := IDENTITY, point, scalar;
    while rest != 0
      invariant Ladder(Adder(cv), result, addend, rest) == ScalarMult(cv, point, scalar)
    {
      if rest % 2 == 1 {
        result := PointAdd(cv, result, addend);
      }
      addend := PointAdd(cv, addend, addend);
      rest := rest / 2;
    }
    r := Some(result);
    if GroupLaw(cv) && Valid(cv, point) { ScalarMultIsRepeated(cv, point, scalar); }
  }

  lemma EdwardsLaws(cv: Curve)
    requires Good(cv)
    ensures Laws(EdwardsAddition(cv))
  {
    var m := EdwardsAddition(cv);
    IdentityValid(cv);
    forall p {:trigger m.eq(p, p)} | m.valid(p) ensures m.eq(p, p) { EqualRefl(cv, p); }
    forall p, q {:trigger m.eq(p, q)} | m.eq(p, q) ensures m.eq(q, p) { EqualSym(cv, p, q); }
    forall p, q, r {:trigger m.eq(p, q), m.eq(q, r)} | m.valid(q) && m.eq(p, q) && m.eq(q, r) ensures m.eq(p, r) {
      EqualTrans(cv, p, q, r);
    }
    forall p, q {:trigger m.add(p, q)} | m.valid(p) && m.valid(q) ensures m.valid(m.add(p, q)) { AddValid(cv, p, q); }
    forall p, q {:trigger m.add(p, q)} ensures m.add(p, q) == m.add(q, p) { AddCommutes(cv, p, q); }
    forall p {:trigger m.add(p, m.zero)} | m.valid(p) ensures m.eq(m.add(p, m.zero), p) { AddIdentity(cv, p); }
    forall p, p', q {:trigger m.add(p, q), m.add(p', q)} | m.valid(p) && m.valid(p') && m.valid(q) && m.eq(p, p')
      ensures m.eq(m.add(p, q), m.add(p', q)) {
      AddRespectsEqual(cv, p, p', q);
    }
  }

  lemma EdwardsAssociates(cv: Curve)
    requires GroupLaw(cv)
    ensures Associates(EdwardsAddition(cv))
  {
    var m := EdwardsAddition(cv);
    forall p, q, r {:trigger m.add(m.add(p, q), r)} | m.valid(p) && m.valid(q) && m.valid(r)
      ensures m.eq(m.add(m.add(p, q), r), m.add(p, m.add(q, r))) {
      assert PointEqual(cv, PointAdd(cv, PointAdd(cv, p, q), r), PointAdd(cv, p, PointAdd(cv, q, r)));
    }
  }

  lemma ScalarMultValid(cv: Curve, p: Point, n: nat)
    requires Good(cv) && Valid(cv, p)
    ensures Valid(cv, ScalarMult(cv, p, n))
  {
    EdwardsLaws(cv);
    LadderValid(EdwardsAddition(cv), IDENTITY, p, n);
  }

  /** Double-and-add is repeated addition. */
  lemma ScalarMultIsRepeated(cv: Curve, p: Point, n: nat)
    requires GroupLaw(cv) && Valid(cv, p)
    ensures PointEqual(cv, ScalarMult(cv, p, n), Repeated(cv, p, n))
  {
    EdwardsLaws(cv);
    EdwardsAssociates(cv);
    LadderFromZero(EdwardsAddition(cv), p, n);
  }

  /** Scalars add: [m + n]P is [m]P + [n]P. */
  lemma ScalarsAdd(cv: Curve, p: Point, m: nat, n: nat)
    requires GroupLaw(cv) && Valid(cv, p)
    ensures PointEqual(cv, ScalarMult(cv, p, m + n), PointAdd(cv, ScalarMult(cv, p, m), ScalarMult(cv, p, n)))
  {
    EdwardsLaws(cv);
    EdwardsAssociates(cv);
    LadderAdd(EdwardsAddition(cv), p, m, n);
  }

  /** Equal points have equal multiples. */
  lemma ScalarMultRespectsEqual(cv: Curve, p: Point, p': Point, n: nat)
    requires Good(cv) && Valid(cv, p) && Valid(cv, p') && PointEqual(cv, p, p')
    ensures PointEqual(cv, ScalarMult(cv, p, n), ScalarMult(cv, p', n))
  {
    EdwardsLaws(cv);
    EqualRefl(cv, IDENTITY);
    LadderRespects(EdwardsAddition(cv), IDENTITY, IDENTITY, p, p', n);
  }

  /** An odd multiple of a point of order two is the point itself. */
  lemma OddMultipleOfOrderTwo(cv: Curve, p: Point, n: nat)
    requires Good(cv) && Valid(cv, p) && PointEqual(cv, PointAdd(cv, p, p), IDENTITY) && n % 2 == 1
    ensures PointEqual(cv, ScalarMult(cv, p, n), p)
  {
    EdwardsLaws(cv);
    LadderOfOrderTwo(EdwardsAddition(cv), p, n);
  }
}
