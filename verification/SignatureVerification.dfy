/** Signature verification: what it accepts from an honest signer, and that it
    leaves no freedom in the scalar. */
module SignatureVerification {
  import opened PrimeField
  import opened EdwardsField
  import opened EdwardsPoints
  import opened EdwardsGroup
  import opened DoubleAndAdd
  import opened ElementOrder
  import opened ScalarMultiplication
  import opened PointCodec

  type Digest = seq<Byte> -> seq<Byte>

  /** The hash of R, the key and the message, as a scalar. */
  function Challenge(cv: Curve, hash: Digest, r: seq<Byte>, key: seq<Byte>, message: seq<Byte>): nat
    requires cv.order > 0
  {
    FromLittleEndian(hash(r + key + message)) % cv.order
  }

  /** True when verification returns, false when it raises. */
  predicate Verify(cv: Curve, base: Point, hash: Digest, key: seq<Byte>, signature: seq<Byte>, message: seq<Byte>)
    requires cv.order > 0
  {
    if |key| != cv.length || |signature| != 2 * cv.length then false
    else
      var r, s := signature[..cv.length], FromLittleEndian(signature[cv.length..]);
      match (DecodePoint(cv, key), DecodePoint(cv, r))
      case (Some(public), Some(nonce)) =>
        && s < cv.order
        && PointEqual(cv, ScalarMult(cv, base, s),
             PointAdd(cv, nonce, ScalarMult(cv, public, Challenge(cv, hash, r, key, message))))
      case _ => false
  }

  /** The base point is valid and generates a subgroup of prime order. */
  ghost predicate Generator(cv: Curve, base: Point) {
    Valid(cv, base) && InPrimeSubgroup(cv, base)
  }

  // ----- multiples of the base point

  lemma ScalarMultOfMultiple(cv: Curve, p: Point, a: nat, b: nat)
    requires GroupLaw(cv) && Valid(cv, p)
    ensures a * b >= 0
    ensures PointEqual(cv, ScalarMult(cv, ScalarMult(cv, p, a), b), ScalarMult(cv, p, a * b))
  {
    var m := EdwardsAddition(cv);
    EdwardsLaws(cv);
    EdwardsAssociates(cv);
    LadderOfLadder(m, p, a, b);
  }

  lemma LadderOfLadder<T(!new)>(m: Addition<T>, p: T, a: nat, b: nat)
    requires Laws(m) && Associates(m) && m.valid(p)
    ensures a * b >= 0
    ensures m.eq(Ladder(m.add, m.zero, Ladder(m.add, m.zero, p, a), b), Ladder(m.add, m.zero, p, a * b))
  {
    var l, q := Ladder(m.add, m.zero, p, a), Multiple(m, p, a);
    MultipleMul(m, p, a, b);
    var ab: nat := a * b;
    LadderFromZero(m, p, a);
    LadderFromZero(m, p, ab);
    LadderValid(m, m.zero, p, a);
    MultipleValid(m, p, a);
    assert m.eq(m.zero, m.zero);
    LadderRespects(m, m.zero, m.zero, l, q, b);
    LadderFromZero(m, q, b);
    LadderValid(m, m.zero, q, b);
    MultipleValid(m, q, b);
    MultipleValid(m, p, ab);
    EqTrans(m, Ladder(m.add, m.zero, l, b), Ladder(m.add, m.zero, q, b), Multiple(m, q, b));
    EqTrans(m, Ladder(m.add, m.zero, l, b), Multiple(m, q, b), Multiple(m, p, ab));
    EqTrans(m, Ladder(m.add, m.zero, l, b), Multiple(m, p, ab), Ladder(m.add, m.zero, p, ab));
  }

  lemma LadderReduce<T(!new)>(m: Addition<T>, p: T, n: nat, a: nat)
    requires Laws(m) && Associates(m) && m.valid(p) && n > 0 && m.eq(Ladder(m.add, m.zero, p, n), m.zero)
    ensures m.eq(Ladder(m.add, m.zero, p, a), Ladder(m.add, m.zero, p, a % n))
  {
    LadderFromZero(m, p, n);
    LadderFromZero(m, p, a);
    LadderFromZero(m, p, a % n);
    LadderValid(m, m.zero, p, n);
    EqTrans(m, Multiple(m, p, n), Ladder(m.add, m.zero, p, n), m.zero);
    MultipleReduce(m, p, n, a);
    MultipleValid(m, p, a);
    MultipleValid(m, p, a % n);
    EqTrans(m, Ladder(m.add, m.zero, p, a), Multiple(m, p, a), Multiple(m, p, a % n));
    EqTrans(m, Ladder(m.add, m.zero, p, a), Multiple(m, p, a % n), Ladder(m.add, m.zero, p, a % n));
  }

  lemma LadderKilled<T(!new)>(m: Addition<T>, p: T, n: nat, a: nat)
    requires Laws(m) && Associates(m) && m.valid(p) && n > 0 && m.eq(Ladder(m.add, m.zero, p, n), m.zero)
    ensures m.eq(Ladder(m.add, m.zero, Ladder(m.add, m.zero, p, a), n), m.zero)
  {
    LadderOfLadder(m, p, a, n);
    var an: nat := a * n;
    MultipleIsZero(a, n);
    assert an % n == 0;
    LadderReduce(m, p, n, an);
    assert Ladder(m.add, m.zero, p, 0) == m.zero;
    LadderValid(m, m.zero, p, a);
    LadderValid(m, m.zero, p, an);
    LadderValid(m, m.zero, Ladder(m.add, m.zero, p, a), n);
    EqTrans(m, Ladder(m.add, m.zero, Ladder(m.add, m.zero, p, a), n), Ladder(m.add, m.zero, p, an), m.zero);
  }

  /** Every multiple of the generator is killed by the order. */
  lemma MultiplesInSubgroup(cv: Curve, base: Point, a: nat)
    requires GroupLaw(cv) && Generator(cv, base) && cv.order > 0
    ensures PointEqual(cv, ScalarMult(cv, ScalarMult(cv, base, a), cv.order), IDENTITY)
  {
    EdwardsLaws(cv);
    EdwardsAssociates(cv);
    LadderKilled(EdwardsAddition(cv), base, cv.order, a);
  }

  lemma LadderEquation<T(!new)>(m: Addition<T>, p: T, n: nat, r: nat, a: nat, h: nat)
    requires Laws(m) && Associates(m) && m.valid(p) && n > 0 && m.eq(Ladder(m.add, m.zero, p, n), m.zero)
    ensures a * h >= 0
    ensures m.eq(Ladder(m.add, m.zero, p, (r + a * h) % n),
              m.add(Ladder(m.add, m.zero, p, r), Ladder(m.add, m.zero, Ladder(m.add, m.zero, p, a), h)))
  {
    LadderOfLadder(m, p, a, h);
    var ah: nat := a * h;
    LadderReduce(m, p, n, r + ah);
    LadderAdd(m, p, r, ah);
    LadderValid(m, m.zero, p, r);
    LadderValid(m, m.zero, p, a);
    LadderValid(m, m.zero, p, ah);
    LadderValid(m, m.zero, p, r + ah);
    LadderValid(m, m.zero, Ladder(m.add, m.zero, p, a), h);
    var x, y, y' := Ladder(m.add, m.zero, p, r), Ladder(m.add, m.zero, p, ah),
        Ladder(m.add, m.zero, Ladder(m.add, m.zero, p, a), h);
    assert m.eq(x, x);
    AddChain(m, Ladder(m.add, m.zero, p, (r + ah) % n), Ladder(m.add, m.zero, p, r + ah), x, y, x, y');
  }

  /** [r]B + [h][a]B is [(r + h a) mod order]B. */
  lemma VerificationEquation(cv: Curve, base: Point, r: nat, h: nat, a: nat)
    requires GroupLaw(cv) && Generator(cv, base) && cv.order > 0
    ensures a * h >= 0
    ensures PointEqual(cv, ScalarMult(cv, base, (r + a * h) % cv.order),
              PointAdd(cv, ScalarMult(cv, base, r), ScalarMult(cv, ScalarMult(cv, base, a), h)))
  {
    EdwardsLaws(cv);
    EdwardsAssociates(cv);
    LadderEquation(EdwardsAddition(cv), base, cv.order, r, a, h);
  }

  // ----- honest signatures are accepted

  /** The signature of the scalar `a` with nonce `r`, as the signer of RFC 8032, section 5.1.6, forms it. */
  function Sign(cv: Curve, base: Point, hash: Digest, a: nat, r: nat, message: seq<Byte>): seq<Byte>
    requires cv.order > 0
  {
    var key, encodedR := EncodePoint(cv, ScalarMult(cv, base, a)), EncodePoint(cv, ScalarMult(cv, base, r));
    var h := FromLittleEndian(hash(encodedR + key + message)) % cv.order;
    encodedR + ToLittleEndian(SignScalar(cv, a, r, h), cv.length)
  }

  function SignScalar(cv: Curve, a: nat, r: nat, h: nat): (s: nat)
    requires cv.order > 0
    ensures s < cv.order
  {
    ScalarNonNegative(a, h);
    (r + a * h) % cv.order
  }

  lemma ScalarNonNegative(a: nat, h: nat)
    ensures a * h >= 0
  {
  }

  /** The right-hand side only depends on the points, not on their coordinates. */
  lemma RightSideRespects(cv: Curve, n: Point, n': Point, k: Point, k': Point, h: nat)
    requires Good(cv) && Valid(cv, n) && Valid(cv, n') && Valid(cv, k) && Valid(cv, k')
    requires PointEqual(cv, n, n') && PointEqual(cv, k, k')
    ensures PointEqual(cv, PointAdd(cv, n, ScalarMult(cv, k, h)), PointAdd(cv, n', ScalarMult(cv, k', h)))
  {
    ScalarMultRespectsEqual(cv, k, k', h);
    ScalarMultValid(cv, k, h);
    ScalarMultValid(cv, k', h);
    AddRespectsBoth(cv, n, n', ScalarMult(cv, k, h), ScalarMult(cv, k', h));
  }

  lemma DecodedValid(cv: Curve, encoded: seq<Byte>)
    requires Encodable(cv) && DecodePoint(cv, encoded).Some?
    ensures Valid(cv, DecodePoint(cv, encoded).value)
  {
    var x, y := DecodedPoint(cv, encoded);
    AffinePointValid(cv, x, y);
  }

  /** The encoding of a non-identity multiple of the generator decodes to that multiple. */
  lemma DecodeMultiple(cv: Curve, base: Point, a: nat)
    requires GroupLaw(cv) && Encodable(cv) && Generator(cv, base) && cv.order > 0
    requires !PointEqual(cv, ScalarMult(cv, base, a), IDENTITY)
    ensures var d := DecodePoint(cv, EncodePoint(cv, ScalarMult(cv, base, a)));
            d.Some? && Valid(cv, d.value) && PointEqual(cv, d.value, ScalarMult(cv, base, a))
  {
    var p := ScalarMult(cv, base, a);
    ScalarMultValid(cv, base, a);
    MultiplesInSubgroup(cv, base, a);
    DecodeEncode(cv, p);
    DecodedValid(cv, EncodePoint(cv, p));
  }

  /** Verification, given what its steps find. */
  lemma VerifyFrom(cv: Curve, base: Point, hash: Digest, key: seq<Byte>, encodedR: seq<Byte>, s: nat,
      message: seq<Byte>)
    requires Encodable(cv) && 0 < cv.order <= Pow256(cv.length) && s < cv.order
    requires |key| == cv.length && |encodedR| == cv.length
    requires DecodePoint(cv, key).Some? && DecodePoint(cv, encodedR).Some?
    requires PointEqual(cv, ScalarMult(cv, base, s), RightSide(cv, hash, key, encodedR, message))
    ensures Verify(cv, base, hash, key, encodedR + ToLittleEndian(s, cv.length), message)
  {
    LittleEndianValue(s, cv.length);
    var signature := encodedR + ToLittleEndian(s, cv.length);
    assert signature[..cv.length] == encodedR;
    assert signature[cv.length..] == ToLittleEndian(s, cv.length);
  }

  /** The signer's scalar satisfies the equation for the decoded key and nonce. */
  lemma SignerEquation(cv: Curve, base: Point, a: nat, r: nat, h: nat, public: Point, nonce: Point)
    requires GroupLaw(cv) && Generator(cv, base) && cv.order > 0 && Valid(cv, public) && Valid(cv, nonce)
    requires PointEqual(cv, public, ScalarMult(cv, base, a)) && PointEqual(cv, nonce, ScalarMult(cv, base, r))
    ensures PointEqual(cv, ScalarMult(cv, base, SignScalar(cv, a, r, h)),
        PointAdd(cv, nonce, ScalarMult(cv, public, h)))
  {
    var A, R := ScalarMult(cv, base, a), ScalarMult(cv, base, r);
    ScalarMultValid(cv, base, a);
    ScalarMultValid(cv, base, r);
    VerificationEquation(cv, base, r, h, a);
    RightSideRespects(cv, nonce, R, public, A, h);
    JoinEquation(cv, ScalarMult(cv, base, SignScalar(cv, a, r, h)), R, A, nonce, public, h);
  }

  lemma HonestAccepted(cv: Curve, base: Point, hash: Digest, a: nat, r: nat, message: seq<Byte>)
    requires GroupLaw(cv) && Encodable(cv) && Generator(cv, base) && 0 < cv.order <= Pow256(cv.length)
    requires !PointEqual(cv, ScalarMult(cv, base, a), IDENTITY)
    requires !PointEqual(cv, ScalarMult(cv, base, r), IDENTITY)
    ensures Verify(cv, base, hash, EncodePoint(cv, ScalarMult(cv, base, a)), Sign(cv, base, hash, a, r, message),
        message)
  {
    var key, encodedR := EncodePoint(cv, ScalarMult(cv, base, a)), EncodePoint(cv, ScalarMult(cv, base, r));
    var h := Challenge(cv, hash, encodedR, key, message);
    DecodeMultiple(cv, base, a);
    DecodeMultiple(cv, base, r);
    SignerEquation(cv, base, a, r, h, DecodePoint(cv, key).value, DecodePoint(cv, encodedR).value);
    VerifyFrom(cv, base, hash, key, encodedR, SignScalar(cv, a, r, h), message);
  }

  /** Verification accepts what an honest signer produces exactly when neither the key nor the nonce is
      the identity. */
  lemma HonestSignatureAccepted(cv: Curve, base: Point, hash: Digest, a: nat, r: nat, message: seq<Byte>)
    requires GroupLaw(cv) && Encodable(cv) && Generator(cv, base) && 0 < cv.order <= Pow256(cv.length)
    ensures var key, nonce := ScalarMult(cv, base, a), ScalarMult(cv, base, r);
            Verify(cv, base, hash, EncodePoint(cv, key), Sign(cv, base, hash, a, r, message), message)
            <==> !PointEqual(cv, key, IDENTITY) && !PointEqual(cv, nonce, IDENTITY)
  {
    var key, nonce := ScalarMult(cv, base, a), ScalarMult(cv, base, r);
    if !PointEqual(cv, key, IDENTITY) && !PointEqual(cv, nonce, IDENTITY) {
      HonestAccepted(cv, base, hash, a, r, message);
    } else if PointEqual(cv, key, IDENTITY) {
      ScalarMultValid(cv, base, a);
      IdentityRejected(cv, key);
    } else {
      ScalarMultValid(cv, base, r);
      IdentityRejected(cv, nonce);
      NoncePart(cv, base, hash, a, r, message);
    }
  }

  lemma NoncePart(cv: Curve, base: Point, hash: Digest, a: nat, r: nat, message: seq<Byte>)
    requires cv.order > 0
    ensures var signature := Sign(cv, base, hash, a, r, message);
            |signature| == 2 * cv.length && signature[..cv.length] == EncodePoint(cv, ScalarMult(cv, base, r))
  {
  }

  /** With a prime order that means: neither secret scalar is a multiple of the order. */
  lemma HonestScalarsAccepted(cv: Curve, base: Point, hash: Digest, a: nat, r: nat, message: seq<Byte>)
    requires GroupLaw(cv) && Encodable(cv) && Generator(cv, base) && IsPrime(cv.order) && cv.order <= Pow256(cv.length)
    ensures var key := EncodePoint(cv, ScalarMult(cv, base, a));
            Verify(cv, base, hash, key, Sign(cv, base, hash, a, r, message), message)
            <==> a % cv.order != 0 && r % cv.order != 0
  {
    HonestSignatureAccepted(cv, base, hash, a, r, message);
    IdentityMultiples(cv, base, a);
    IdentityMultiples(cv, base, r);
  }

  lemma IdentityMultiples(cv: Curve, base: Point, a: nat)
    requires GroupLaw(cv) && Generator(cv, base) && IsPrime(cv.order)
    ensures PointEqual(cv, ScalarMult(cv, base, a), IDENTITY) <==> a % cv.order == 0
  {
    EdwardsLaws(cv);
    EdwardsAssociates(cv);
    LadderIsZero(EdwardsAddition(cv), base, cv.order, a);
  }

  lemma LadderIsZero<T(!new)>(m: Addition<T>, p: T, n: nat, a: nat)
    requires Laws(m) && Associates(m) && m.valid(p) && IsPrime(n)
    requires m.eq(Ladder(m.add, m.zero, p, n), m.zero) && !m.eq(p, m.zero)
    ensures m.eq(Ladder(m.add, m.zero, p, a), m.zero) <==> a % n == 0
  {
    var x, y := Ladder(m.add, m.zero, p, a), Ladder(m.add, m.zero, p, a % n);
    LadderReduce(m, p, n, a);
    LadderValid(m, m.zero, p, a);
    LadderValid(m, m.zero, p, a % n);
    assert Ladder(m.add, m.zero, p, 0) == m.zero;
    if m.eq(x, m.zero) {
      EqTrans(m, y, x, m.zero);
      LaddersDiffer(m, p, n, a % n, 0);
    }
  }

  lemma JoinEquation(cv: Curve, l: Point, R: Point, A: Point, nonce: Point, public: Point, h: nat)
    requires Good(cv) && Valid(cv, R) && Valid(cv, A)
    requires PointEqual(cv, l, PointAdd(cv, R, ScalarMult(cv, A, h)))
    requires PointEqual(cv, PointAdd(cv, nonce, ScalarMult(cv, public, h)), PointAdd(cv, R, ScalarMult(cv, A, h)))
    ensures PointEqual(cv, l, PointAdd(cv, nonce, ScalarMult(cv, public, h)))
  {
    ScalarMultValid(cv, A, h);
    AddValid(cv, R, ScalarMult(cv, A, h));
    EqualSym(cv, PointAdd(cv, nonce, ScalarMult(cv, public, h)), PointAdd(cv, R, ScalarMult(cv, A, h)));
    EqualTrans(cv, l, PointAdd(cv, R, ScalarMult(cv, A, h)), PointAdd(cv, nonce, ScalarMult(cv, public, h)));
  }

  // ----- the scalar of an accepted signature is determined

  lemma LaddersDiffer<T(!new)>(m: Addition<T>, p: T, n: nat, a: nat, b: nat)
    requires Laws(m) && Associates(m) && m.valid(p) && IsPrime(n) && a < n && b < n
    requires m.eq(Ladder(m.add, m.zero, p, n), m.zero) && !m.eq(p, m.zero)
    requires m.eq(Ladder(m.add, m.zero, p, a), Ladder(m.add, m.zero, p, b))
    ensures a == b
  {
    LadderFromZero(m, p, n);
    LadderFromZero(m, p, a);
    LadderFromZero(m, p, b);
    LadderValid(m, m.zero, p, n);
    LadderValid(m, m.zero, p, a);
    LadderValid(m, m.zero, p, b);
    EqTrans(m, Multiple(m, p, n), Ladder(m.add, m.zero, p, n), m.zero);
    EqTrans(m, Multiple(m, p, a), Ladder(m.add, m.zero, p, a), Ladder(m.add, m.zero, p, b));
    EqTrans(m, Multiple(m, p, a), Ladder(m.add, m.zero, p, b), Multiple(m, p, b));
    MultiplesDiffer(m, p, n, a, b);
  }

  /** Two accepted signatures of one message under one key with the same R are the same signature. */
  lemma ScalarNotMalleable(cv: Curve, base: Point, hash: Digest, key: seq<Byte>, sig: seq<Byte>, sig': seq<Byte>,
      message: seq<Byte>)
    requires GroupLaw(cv) && Encodable(cv) && Generator(cv, base) && IsPrime(cv.order)
    requires Verify(cv, base, hash, key, sig, message) && Verify(cv, base, hash, key, sig', message)
    requires sig[..cv.length] == sig'[..cv.length]
    ensures sig == sig'
  {
    AcceptedEquation(cv, base, hash, key, sig, message);
    AcceptedEquation(cv, base, hash, key, sig', message);
    var t, t' := sig[cv.length..], sig'[cv.length..];
    SameScalar(cv, base, RightSide(cv, hash, key, sig[..cv.length], message), FromLittleEndian(t),
        FromLittleEndian(t'));
    SameBytes(t, t');
    assert sig == sig[..cv.length] + t && sig' == sig'[..cv.length] + t';
  }

  lemma SameBytes(t: seq<Byte>, t': seq<Byte>)
    requires |t| == |t'| && FromLittleEndian(t) == FromLittleEndian(t')
    ensures t == t'
  {
    LittleEndianRoundTrip(t);
    LittleEndianRoundTrip(t');
  }

  /** R + [h]A from the encoded key and R, with h the hash of R, the key and the message. */
  ghost function RightSide(cv: Curve, hash: Digest, key: seq<Byte>, r: seq<Byte>, message: seq<Byte>): Point
    requires cv.order > 0 && DecodePoint(cv, key).Some? && DecodePoint(cv, r).Some?
  {
    PointAdd(cv, DecodePoint(cv, r).value,
      ScalarMult(cv, DecodePoint(cv, key).value, FromLittleEndian(hash(r + key + message)) % cv.order))
  }

  lemma AcceptedEquation(cv: Curve, base: Point, hash: Digest, key: seq<Byte>, sig: seq<Byte>, message: seq<Byte>)
    requires Encodable(cv) && cv.order > 0 && Verify(cv, base, hash, key, sig, message)
    ensures |key| == cv.length && |sig| == 2 * cv.length
    ensures DecodePoint(cv, key).Some? && DecodePoint(cv, sig[..cv.length]).Some?
    ensures FromLittleEndian(sig[cv.length..]) < cv.order
    ensures var right := RightSide(cv, hash, key, sig[..cv.length], message);
            Valid(cv, right) && PointEqual(cv, ScalarMult(cv, base, FromLittleEndian(sig[cv.length..])), right)
  {
    var r := sig[..cv.length];
    var public, nonce, h := DecodePoint(cv, key).value, DecodePoint(cv, r).value, Challenge(cv, hash, r, key, message);
    DecodedValid(cv, key);
    DecodedValid(cv, r);
    ScalarMultValid(cv, public, h);
    AddValid(cv, nonce, ScalarMult(cv, public, h));
  }

  lemma SameScalar(cv: Curve, base: Point, right: Point, s: nat, s': nat)
    requires GroupLaw(cv) && Generator(cv, base) && IsPrime(cv.order) && s < cv.order && s' < cv.order
    requires Valid(cv, right)
    requires PointEqual(cv, ScalarMult(cv, base, s), right) && PointEqual(cv, ScalarMult(cv, base, s'), right)
    ensures s == s'
  {
    EqualSym(cv, ScalarMult(cv, base, s'), right);
    EqualTrans(cv, ScalarMult(cv, base, s), right, ScalarMult(cv, base, s'));
    EdwardsLaws(cv);
    EdwardsAssociates(cv);
    LaddersDiffer(EdwardsAddition(cv), base, cv.order, s, s');
  }

  // ----- a signature binds its message

  lemma LaddersCancel<T(!new)>(m: Addition<T>, nonce: T, p: T, n: nat, h: nat, h': nat)
    requires Laws(m) && Associates(m) && m.valid(nonce) && m.valid(p) && IsPrime(n) && h < n && h' < n
    requires m.eq(Ladder(m.add, m.zero, nonce, n), m.zero)
    requires m.eq(Ladder(m.add, m.zero, p, n), m.zero) && !m.eq(p, m.zero)
    requires m.eq(m.add(nonce, Ladder(m.add, m.zero, p, h)), m.add(nonce, Ladder(m.add, m.zero, p, h')))
    ensures h == h'
  {
    LadderFromZero(m, nonce, n);
    LadderValid(m, m.zero, nonce, n);
    EqTrans(m, Multiple(m, nonce, n), Ladder(m.add, m.zero, nonce, n), m.zero);
    LadderValid(m, m.zero, p, h);
    LadderValid(m, m.zero, p, h');
    CancelLeft(m, nonce, n, Ladder(m.add, m.zero, p, h), Ladder(m.add, m.zero, p, h'));
    LaddersDiffer(m, p, n, h, h');
  }

  /** A nonce and a key determine the challenge of the sum. */
  lemma SameChallenge(cv: Curve, nonce: Point, public: Point, h: nat, h': nat, left: Point)
    requires GroupLaw(cv) && IsPrime(cv.order) && h < cv.order && h' < cv.order && Valid(cv, left)
    requires Valid(cv, nonce) && InPrimeSubgroup(cv, nonce) && Valid(cv, public) && InPrimeSubgroup(cv, public)
    requires PointEqual(cv, left, PointAdd(cv, nonce, ScalarMult(cv, public, h)))
    requires PointEqual(cv, left, PointAdd(cv, nonce, ScalarMult(cv, public, h')))
    ensures h == h'
  {
    EqualSym(cv, left, PointAdd(cv, nonce, ScalarMult(cv, public, h)));
    EqualTrans(cv, PointAdd(cv, nonce, ScalarMult(cv, public, h)), left,
      PointAdd(cv, nonce, ScalarMult(cv, public, h')));
    EdwardsLaws(cv);
    EdwardsAssociates(cv);
    LaddersCancel(EdwardsAddition(cv), nonce, public, cv.order, h, h');
  }

  /** One signature is accepted under one key for two messages only if their hashes, with R and the key
      in front, agree modulo the order. */
  lemma SignatureBindsMessage(cv: Curve, base: Point, hash: Digest, key: seq<Byte>, sig: seq<Byte>,
                              message: seq<Byte>, message': seq<Byte>)
    requires GroupLaw(cv) && Encodable(cv) && Generator(cv, base) && IsPrime(cv.order)
    requires Verify(cv, base, hash, key, sig, message)
    ensures Verify(cv, base, hash, key, sig, message') <==>
            FromLittleEndian(hash(sig[..cv.length] + key + message)) % cv.order ==
            FromLittleEndian(hash(sig[..cv.length] + key + message')) % cv.order
  {
    var r := sig[..cv.length];
    AcceptedEquation(cv, base, hash, key, sig, message);
    if Verify(cv, base, hash, key, sig, message') {
      AcceptedEquation(cv, base, hash, key, sig, message');
      DecodedValid(cv, key);
      DecodedValid(cv, r);
      var left := ScalarMult(cv, base, FromLittleEndian(sig[cv.length..]));
      ScalarMultValid(cv, base, FromLittleEndian(sig[cv.length..]));
      SameChallenge(cv, DecodePoint(cv, r).value, DecodePoint(cv, key).value,
        FromLittleEndian(hash(r + key + message)) % cv.order,
        FromLittleEndian(hash(r + key + message')) % cv.order, left);
    }
  }
}
