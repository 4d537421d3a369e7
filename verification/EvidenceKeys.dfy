/** The signing keys of admitted evidence as points of the curve. */
module EvidenceKeys {
  import opened Sequences
  import opened EdwardsField
  import opened EdwardsPoints
  import opened PointCodec
  import opened SignatureVerification
  import opened EvidenceSignatures

  /** The readers use the strict Ed25519 primitives of the curve. */
  ghost predicate OnCurveReaders(cv: Curve, base: Point, hash: Digest, rd: Readers)
    requires cv.order > 0
  {
    && (forall key: Bytes :: rd.strictPoint(key) <==> DecodePoint(cv, key).Some?)
    && (forall key: Bytes, signature: Bytes, payload: Bytes ::
          rd.verify(key, signature, payload) <==> Verify(cv, base, hash, key, signature, payload))
  }

  /** The signature's key is enrolled, is a point, and the signature verifies under it over the payload. */
  ghost predicate SignedOnCurve(cv: Curve, base: Point, hash: Digest, rd: Readers, store: map<string, TrustedKey>,
                                ctx: Context, s: Signature)
    requires cv.order > 0
  {
    && s.keyId in store && DecodePoint(cv, store[s.keyId].publicKey).Some?
    && rd.decode(s.signature).Some?
    && Verify(cv, base, hash, store[s.keyId].publicKey, rd.decode(s.signature).value, ctx.payload)
  }

  /** The keys of the two signatures are points, and not the same one. */
  ghost predicate OnDifferentPoints(cv: Curve, store: map<string, TrustedKey>, s: Signature, t: Signature) {
    && s.keyId in store && t.keyId in store
    && var p, q := DecodePoint(cv, store[s.keyId].publicKey), DecodePoint(cv, store[t.keyId].publicKey);
       p.Some? && q.Some? && !PointEqual(cv, p.value, q.value)
  }

  /** Every key of a loaded store is the encoding of a point. */
  lemma EnrolledIsStrict(rd: Readers, entries: seq<Option<RawKey>>, store: map<string, TrustedKey>, id: string)
    requires AllRead(rd, entries) && Enrolled(ReadKeys(rd, entries), store) && id in store
    ensures rd.strictPoint(store[id].publicKey)
  {
    var i := HolderOf(ReadKeys(rd, entries), store, id);
    assert ReadKey(rd, entries[i]) == Some(store[id]);
  }

  lemma VerifiedOnCurve(cv: Curve, base: Point, hash: Digest, rd: Readers, entries: seq<Option<RawKey>>,
                        store: map<string, TrustedKey>, ctx: Context, s: Signature)
    requires cv.order > 0 && OnCurveReaders(cv, base, hash, rd)
    requires AllRead(rd, entries) && Enrolled(ReadKeys(rd, entries), store) && SignedBy(rd, store, ctx, s)
    ensures SignedOnCurve(cv, base, hash, rd, store, ctx, s)
  {
    EnrolledIsStrict(rd, entries, store, s.keyId);
    assert rd.verify(store[s.keyId].publicKey, rd.decode(s.signature).value, ctx.payload);
  }

  /** Admission under a loaded store means signatures that verify on the curve under as many different
      points as the gate requires signers. */
  lemma AdmittedPointsDiffer(cv: Curve, base: Point, hash: Digest, rd: Readers, doc: TrustDocument,
                             store: map<string, TrustedKey>, ctx: Context, sigs: seq<Signature>)
    requires Encodable(cv) && cv.order > 0 && OnCurveReaders(cv, base, hash, rd)
    requires Loadable(rd, doc) && Enrolled(ReadKeys(rd, doc.keys.value), store) && Admitted(rd, Some(store), ctx, sigs)
    ensures |sigs| == Sum(ctx.required)
    ensures forall i | 0 <= i < |sigs| :: SignedOnCurve(cv, base, hash, rd, store, ctx, sigs[i])
    ensures forall i, j | 0 <= i < j < |sigs| :: OnDifferentPoints(cv, store, sigs[i], sigs[j])
  {
    EnrolledSound(ReadKeys(rd, doc.keys.value), store);
    DenominatorMet(rd, Some(store), ctx, sigs);
    AdmissionSeparates(rd, store, ctx, sigs);
    forall i | 0 <= i < |sigs| ensures SignedOnCurve(cv, base, hash, rd, store, ctx, sigs[i]) {
      VerifiedOnCurve(cv, base, hash, rd, doc.keys.value, store, ctx, sigs[i]);
    }
    forall i, j | 0 <= i < j < |sigs| ensures OnDifferentPoints(cv, store, sigs[i], sigs[j]) {
      assert SignedOnCurve(cv, base, hash, rd, store, ctx, sigs[i]);
      assert SignedOnCurve(cv, base, hash, rd, store, ctx, sigs[j]);
      PointsDiffer(cv, SigningKeys(store, sigs)[i], SigningKeys(store, sigs)[j]);
    }
  }

  lemma PointsDiffer(cv: Curve, a: Bytes, b: Bytes)
    requires Encodable(cv) && DecodePoint(cv, a).Some? && DecodePoint(cv, b).Some? && a != b
    ensures !PointEqual(cv, DecodePoint(cv, a).value, DecodePoint(cv, b).value)
  {
    if PointEqual(cv, DecodePoint(cv, a).value, DecodePoint(cv, b).value) {
      DecodeInjective(cv, a, b);
    }
  }
}
