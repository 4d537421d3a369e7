/** Enrolled signing keys, and the signatures an evidence document needs for its gate. */
module EvidenceSignatures {
  import opened Sequences
  import PointCodec

  type Bytes = seq<PointCodec.Byte>

  /** The field formats and the cryptography: identifier tokens, canonical base64, UTC timestamps,
      strict curve points, the encoding check used without a trust store, and verification of a
      signature over a payload. */
  datatype Readers = Readers(
    token: string -> bool,
    decode: string -> Option<Bytes>,
    time: string -> Option<int>,
    strictPoint: Bytes -> bool,
    encoded: string -> bool,
    verify: (Bytes, Bytes, Bytes) -> bool)

  const ED25519 := "ed25519"
  const ECDSA := "ecdsa-p256-sha256"

  // ----- the trust store

  /** An entry of the trust store as written; revoked is None when it is not a boolean. */
  datatype RawKey = RawKey(id: string, actor: string, role: string, algorithm: string, publicKey: string,
    validFrom: string, validUntil: string, revoked: Option<bool>)

  datatype TrustedKey = TrustedKey(id: string, actor: string, role: string, algorithm: string, publicKey: Bytes,
    validFrom: int, validUntil: int, revoked: bool)

  /** One entry on its own; None stands for an entry that is not an object with the right keys. */
  function ReadKey(rd: Readers, entry: Option<RawKey>): Option<TrustedKey> {
    if entry.None? then None else
    var k := entry.value;
    var bytes, from, until := rd.decode(k.publicKey), rd.time(k.validFrom), rd.time(k.validUntil);
    if rd.token(k.id) && rd.token(k.actor) && rd.token(k.role) && k.algorithm == ED25519
       && bytes.Some? && |bytes.value| == 32 && rd.strictPoint(bytes.value)
       && from.Some? && until.Some? && from.value < until.value && k.revoked.Some?
    then Some(TrustedKey(k.id, k.actor, k.role, k.algorithm, bytes.value, from.value, until.value, k.revoked.value))
    else None
  }

  predicate AllRead(rd: Readers, entries: seq<Option<RawKey>>) {
    forall i | 0 <= i < |entries| :: ReadKey(rd, entries[i]).Some?
  }

  function ReadKeys(rd: Readers, entries: seq<Option<RawKey>>): (r: seq<TrustedKey>)
    requires AllRead(rd, entries)
    ensures |r| == |entries| && forall i | 0 <= i < |entries| :: ReadKey(rd, entries[i]) == Some(r[i])
  {
    seq(|entries|, i requires 0 <= i < |entries| => ReadKey(rd, entries[i]).value)
  }

  function KeyNames(keys: seq<TrustedKey>): (r: seq<string>)
    ensures |r| == |keys| && forall i | 0 <= i < |keys| :: r[i] == keys[i].id
  {
    seq(|keys|, i requires 0 <= i < |keys| => keys[i].id)
  }

  function KeyBytes(keys: seq<TrustedKey>): (r: seq<Bytes>)
    ensures |r| == |keys| && forall i | 0 <= i < |keys| :: r[i] == keys[i].publicKey
  {
    seq(|keys|, i requires 0 <= i < |keys| => keys[i].publicKey)
  }

  /** No two keys share an identifier or their bytes. */
  ghost predicate KeysDiffer(keys: seq<TrustedKey>) {
    Distinct(KeyNames(keys)) && Distinct(KeyBytes(keys))
  }

  ghost predicate Enrolled(keys: seq<TrustedKey>, store: map<string, TrustedKey>) {
    && store.Keys == Elements(KeyNames(keys))
    && (forall i | 0 <= i < |keys| :: keys[i].id in store && store[keys[i].id] == keys[i])
  }

  /** Everything a store holds is filed under its own identifier, and bytes determine the identifier. */
  ghost predicate StoreSound(store: map<string, TrustedKey>) {
    && (forall id | id in store :: store[id].id == id)
    && (forall a, b | a in store && b in store && store[a].publicKey == store[b].publicKey :: a == b)
  }

  lemma HolderOf(keys: seq<TrustedKey>, store: map<string, TrustedKey>, id: string) returns (i: nat)
    requires Enrolled(keys, store) && id in store
    ensures i < |keys| && store[id] == keys[i] && keys[i].id == id
  {
    assert id in Elements(KeyNames(keys));
    i :| i < |keys| && KeyNames(keys)[i] == id;
    assert keys[i].id == id;
  }

  lemma EnrolledSound(keys: seq<TrustedKey>, store: map<string, TrustedKey>)
    requires KeysDiffer(keys) && Enrolled(keys, store)
    ensures StoreSound(store)
  {
    forall id | id in store ensures store[id].id == id {
      var i := HolderOf(keys, store, id);
    }
    forall a, b | a in store && b in store && store[a].publicKey == store[b].publicKey ensures a == b {
      var i := HolderOf(keys, store, a);
      var j := HolderOf(keys, store, b);
      assert KeyBytes(keys)[i] == KeyBytes(keys)[j];
    }
  }

  /** The record of an entry: each field is the entry's own, with its key decoded and its window read. */
  ghost predicate RecordOf(rd: Readers, entry: RawKey, key: TrustedKey) {
    && rd.token(entry.id) && rd.token(entry.actor) && rd.token(entry.role)
    && key.id == entry.id && key.actor == entry.actor && key.role == entry.role
    && key.algorithm == entry.algorithm == "ed25519"
    && rd.decode(entry.publicKey) == Some(key.publicKey) && |key.publicKey| == 32 && rd.strictPoint(key.publicKey)
    && rd.time(entry.validFrom) == Some(key.validFrom) && rd.time(entry.validUntil) == Some(key.validUntil)
    && key.validFrom < key.validUntil && entry.revoked == Some(key.revoked)
  }

  lemma ReadIsRecord(rd: Readers, entry: Option<RawKey>, key: TrustedKey)
    ensures ReadKey(rd, entry) == Some(key) <==> entry.Some? && RecordOf(rd, entry.value, key)
  {
  }

  /** What the collections of the loading loop hold after these keys. */
  ghost predicate Loaded(keys: seq<TrustedKey>, records: map<string, TrustedKey>,
                         identities: set<(string, string, Bytes)>, publicKeys: set<Bytes>)
  {
    && KeysDiffer(keys) && Enrolled(keys, records) && publicKeys == Elements(KeyBytes(keys))
    && (forall t | t in identities :: t.2 in publicKeys)
  }

  lemma LoadNext(keys: seq<TrustedKey>, next: TrustedKey)
    ensures KeyNames(keys + [next]) == KeyNames(keys) + [next.id]
        && KeyBytes(keys + [next]) == KeyBytes(keys) + [next.publicKey]
    ensures Elements(KeyNames(keys + [next])) == Elements(KeyNames(keys)) + {next.id}
    ensures Elements(KeyBytes(keys + [next])) == Elements(KeyBytes(keys)) + {next.publicKey}
    ensures KeysDiffer(keys + [next]) <==>
            KeysDiffer(keys) && next.id !in Elements(KeyNames(keys)) && next.publicKey !in Elements(KeyBytes(keys))
  {
    assert KeyNames(keys + [next]) == KeyNames(keys) + [next.id];
    assert KeyBytes(keys + [next]) == KeyBytes(keys) + [next.publicKey];
    DistinctSnoc(KeyNames(keys), next.id);
    DistinctSnoc(KeyBytes(keys), next.publicKey);
  }

  lemma KeysDifferPrefix(keys: seq<TrustedKey>, all: seq<TrustedKey>)
    requires keys <= all && KeysDiffer(all)
    ensures KeysDiffer(keys)
  {
    assert KeyNames(keys) == KeyNames(all)[..|keys|] && KeyBytes(keys) == KeyBytes(all)[..|keys|];
    DistinctPrefix(KeyNames(all), |keys|);
    DistinctPrefix(KeyBytes(all), |keys|);
  }

  /** One turn of the loading loop, for an entry that reads. */
  method Enrol(ghost keys: seq<TrustedKey>, records: map<string, TrustedKey>, identities: set<(string, string, Bytes)>,
               publicKeys: set<Bytes>, next: TrustedKey)
      returns (ok: bool, records': map<string, TrustedKey>, identities': set<(string, string, Bytes)>,
          publicKeys': set<Bytes>)
    requires Loaded(keys, records, identities, publicKeys)
    ensures ok <==> KeysDiffer(keys + [next])
    ensures ok ==> Loaded(keys + [next], records', identities', publicKeys')
  {
    LoadNext(keys, next);
    records', identities', publicKeys' := records, identities, publicKeys;
    var identity := (next.actor, next.role, next.publicKey);
    ok := !(next.id in records || identity in identities || next.publicKey in publicKeys);
    if ok {
      records' := records[next.id := next];
      identities' := identities + {identity};
      publicKeys' := publicKeys + {next.publicKey};
    }
  }

  const TRUST_SCHEMA := "HEPTABAO_EXTERNAL_TRUST_STORE_V2_5"

  /** A trust store as read; NotAStore is not an object with exactly its three keys, and keys is None
      when it is not a list. */
  datatype TrustDocument = NotAStore
      | TrustDocument(schema: string, authority: string, keys: Option<seq<Option<RawKey>>>)

  ghost predicate Loadable(rd: Readers, doc: TrustDocument) {
    && doc.TrustDocument? && doc.schema == TRUST_SCHEMA && doc.authority == "NONE"
    && doc.keys.Some? && 1 <= |doc.keys.value| <= 4096
    && AllRead(rd, doc.keys.value) && KeysDiffer(ReadKeys(rd, doc.keys.value))
  }

  /** The loop that fills the store. */
  method LoadKeys(rd: Readers, entries: seq<Option<RawKey>>) returns (r: Option<map<string, TrustedKey>>)
    ensures r.Some? <==> AllRead(rd, entries) && KeysDiffer(ReadKeys(rd, entries))
    ensures r.Some? ==> Enrolled(ReadKeys(rd, entries), r.value) && StoreSound(r.value)
  {
    var records: map<string, TrustedKey> := map[];
    var identities: set<(string, string, Bytes)> := {};
    var publicKeys: set<Bytes> := {};
    ghost var keys: seq<TrustedKey> := [];
    for k := 0 to |entries|
      invariant |keys| == k && forall i | 0 <= i < k :: ReadKey(rd, entries[i]) == Some(keys[i])
      invariant Loaded(keys, records, identities, publicKeys)
    {
      var key := ReadKey(rd, entries[k]);
      if key.None? {
        return None;
      }
      var ok;
      ok, records, identities, publicKeys := Enrol(keys, records, identities, publicKeys, key.value);
      keys := keys + [key.value];
      if !ok {
        if AllRead(rd, entries) && KeysDiffer(ReadKeys(rd, entries)) {
          KeysDifferPrefix(keys, ReadKeys(rd, entries));
        }
        return None;
      }
    }
    assert keys == ReadKeys(rd, entries);
    EnrolledSound(keys, records);
    r := Some(records);
  }

  /** The store is loaded exactly when it is a store without authority, every entry reads, and no
      identifier or key is repeated. */
  method LoadTrustStore(rd: Readers, doc: TrustDocument) returns (r: Option<map<string, TrustedKey>>)
    ensures r.Some? <==> Loadable(rd, doc)
    ensures r.Some? ==> Enrolled(ReadKeys(rd, doc.keys.value), r.value) && StoreSound(r.value)
    ensures r.Some? ==> HoldsRecords(rd, doc.keys.value, r.value)
  {
    if doc.NotAStore? || doc.schema != TRUST_SCHEMA || doc.authority != "NONE" {
      return None;
    }
    if doc.keys.None? || |doc.keys.value| < 1 || |doc.keys.value| > 4096 {
      return None;
    }
    r := LoadKeys(rd, doc.keys.value);
    if r.Some? { StoreHoldsRecords(rd, doc.keys.value, r.value); }
  }

  /** The store holds the record of each entry under its identifier, and nothing else. */
  ghost predicate HoldsRecords(rd: Readers, entries: seq<Option<RawKey>>, store: map<string, TrustedKey>) {
    && (forall i | 0 <= i < |entries| ::
          && entries[i].Some? && entries[i].value.id in store
          && RecordOf(rd, entries[i].value, store[entries[i].value.id]))
    && (forall id | id in store :: exists i :: 0 <= i < |entries| && entries[i].Some? && entries[i].value.id == id)
  }

  lemma StoreHoldsRecords(rd: Readers, entries: seq<Option<RawKey>>, store: map<string, TrustedKey>)
    requires AllRead(rd, entries) && Enrolled(ReadKeys(rd, entries), store)
    ensures HoldsRecords(rd, entries, store)
  {
    var keys := ReadKeys(rd, entries);
    forall i | 0 <= i < |entries|
      ensures && entries[i].Some? && entries[i].value.id in store
              && RecordOf(rd, entries[i].value, store[entries[i].value.id])
    {
      ReadIsRecord(rd, entries[i], keys[i]);
    }
    forall id | id in store ensures exists i :: 0 <= i < |entries| && entries[i].Some? && entries[i].value.id == id {
      var i := HolderOf(keys, store, id);
      ReadIsRecord(rd, entries[i], keys[i]);
    }
  }

  // ----- the signatures of a document

  datatype Signature = Signature(signer: string, role: string, keyId: string, signedAt: string, algorithm: string,
    signature: string, payloadSha: string)

  /** What is settled about a document before its signatures are read: who may not sign, the validity
      window, the signers its gate requires, and the payload they sign with its digest. */
  datatype Context = Context(authors: set<string>, issuer: string, created: int, expires: int,
    required: map<string, nat>, payload: Bytes, digest: string)

  /** The entry of the store vouches for this signature over the payload. */
  predicate Vouched(rd: Readers, store: map<string, TrustedKey>, payload: Bytes, s: Signature, at: int) {
    && s.keyId in store
    && var key := store[s.keyId];
       var bytes := rd.decode(s.signature);
       && key.actor == s.signer && key.role == s.role && key.algorithm == s.algorithm
       && !key.revoked && key.validFrom <= at < key.validUntil
       && bytes.Some? && |bytes.value| == 64 && rd.verify(key.publicKey, bytes.value, payload)
  }

  /** A signature on its own, whatever the others are. */
  predicate Eligible(rd: Readers, store: Option<map<string, TrustedKey>>, ctx: Context, s: Signature) {
    && rd.token(s.signer) && rd.token(s.role) && rd.token(s.keyId)
    && s.signer !in ctx.authors && s.signer != ctx.issuer && s.role in ctx.required
    && var at := rd.time(s.signedAt);
       && at.Some? && ctx.created <= at.value < ctx.expires
       && (if store.None? then (s.algorithm == ED25519 || s.algorithm == ECDSA) && rd.encoded(s.signature)
           else s.algorithm == ED25519)
       && s.payloadSha == ctx.digest
       && (store.Some? ==> Vouched(rd, store.value, ctx.payload, s, at.value))
  }

  function Roles(sigs: seq<Signature>): (r: seq<string>)
    ensures |r| == |sigs| && forall i | 0 <= i < |sigs| :: r[i] == sigs[i].role
  {
    seq(|sigs|, i requires 0 <= i < |sigs| => sigs[i].role)
  }

  /** How many signatures there are for each role that has one. */
  function Observed(roles: seq<string>): map<string, nat> {
    map role | role in roles :: multiset(roles)[role]
  }

  function Signers(sigs: seq<Signature>): (r: seq<string>)
    ensures |r| == |sigs| && forall i | 0 <= i < |sigs| :: r[i] == sigs[i].signer
  {
    seq(|sigs|, i requires 0 <= i < |sigs| => sigs[i].signer)
  }

  function KeyIds(sigs: seq<Signature>): (r: seq<string>)
    ensures |r| == |sigs| && forall i | 0 <= i < |sigs| :: r[i] == sigs[i].keyId
  {
    seq(|sigs|, i requires 0 <= i < |sigs| => sigs[i].keyId)
  }

  ghost predicate SignersDiffer(sigs: seq<Signature>) {
    Distinct(Signers(sigs)) && Distinct(KeyIds(sigs))
  }

  ghost function Sum(counts: map<string, nat>): nat {
    if counts == map[] then 0
    else
      var role :| role in counts;
      counts[role] + Sum(counts - {role})
  }

  lemma {:induction false} SumWithout(counts: map<string, nat>, role: string)
    requires role in counts
    ensures Sum(counts) == counts[role] + Sum(counts - {role})
    decreases |counts|
  {
    var first :| first in counts && Sum(counts) == counts[first] + Sum(counts - {first});
    if first != role {
      SumWithout(counts - {first}, role);
      SumWithout(counts - {role}, first);
      assert counts - {first} - {role} == counts - {role} - {first};
    }
  }

  method AddUp(counts: map<string, nat>) returns (n: nat)
    ensures n == Sum(counts)
  {
    n := 0;
    var rest := counts;
    while rest != map[]
      invariant n + Sum(rest) == Sum(counts)
      decreases |rest|
    {
      assert rest.Keys != {};
      var role :| role in rest.Keys;
      SumWithout(rest, role);
      n := n + rest[role];
      rest := rest - {role};
    }
  }

  /** The signatures meet the gate: each is eligible, no signer or key signs twice, and each required
      role is there exactly as often as required. */
  ghost predicate Admitted(rd: Readers, store: Option<map<string, TrustedKey>>, ctx: Context, sigs: seq<Signature>) {
    && Sum(ctx.required) <= |sigs| <= 32
    && AllEligible(rd, store, ctx, sigs)
    && SignersDiffer(sigs) && Observed(Roles(sigs)) == ctx.required
  }

  lemma ObservedSnoc(roles: seq<string>, role: string)
    ensures Observed(roles + [role]) ==
            Observed(roles)[role := (if role in Observed(roles) then Observed(roles)[role] else 0) + 1]
  {
    assert multiset(roles + [role]) == multiset(roles) + multiset{role};
    assert forall r :: r in roles <==> r in multiset(roles);
  }

  /** What the collections of the signature loop hold after these signatures. */
  ghost predicate Counted(sigs: seq<Signature>, signers: set<string>, keyIds: set<string>, observed: map<string, nat>) {
    && SignersDiffer(sigs) && signers == Elements(Signers(sigs)) && keyIds == Elements(KeyIds(sigs))
    && observed == Observed(Roles(sigs))
  }

  lemma CountNext(sigs: seq<Signature>, s: Signature)
    ensures SignersDiffer(sigs + [s]) <==>
            SignersDiffer(sigs) && s.signer !in Elements(Signers(sigs)) && s.keyId !in Elements(KeyIds(sigs))
    ensures Elements(Signers(sigs + [s])) == Elements(Signers(sigs)) + {s.signer}
    ensures Elements(KeyIds(sigs + [s])) == Elements(KeyIds(sigs)) + {s.keyId}
    ensures Roles(sigs + [s]) == Roles(sigs) + [s.role]
  {
    assert Signers(sigs + [s]) == Signers(sigs) + [s.signer];
    assert KeyIds(sigs + [s]) == KeyIds(sigs) + [s.keyId];
    assert Roles(sigs + [s]) == Roles(sigs) + [s.role];
    DistinctSnoc(Signers(sigs), s.signer);
    DistinctSnoc(KeyIds(sigs), s.keyId);
  }

  lemma SignersDifferPrefix(sigs: seq<Signature>, k: nat)
    requires k <= |sigs| && SignersDiffer(sigs)
    ensures SignersDiffer(sigs[..k])
  {
    assert Signers(sigs[..k]) == Signers(sigs)[..k] && KeyIds(sigs[..k]) == KeyIds(sigs)[..k];
    DistinctPrefix(Signers(sigs), k);
    DistinctPrefix(KeyIds(sigs), k);
  }

  /** One turn of the signature loop, for an eligible signature. */
  method CountSignature(ghost sigs: seq<Signature>, signers: set<string>, keyIds: set<string>,
      observed: map<string, nat>, s: Signature)
      returns (ok: bool, signers': set<string>, keyIds': set<string>, observed': map<string, nat>)
    requires Counted(sigs, signers, keyIds, observed)
    ensures ok <==> SignersDiffer(sigs + [s])
    ensures ok ==> Counted(sigs + [s], signers', keyIds', observed')
  {
    CountNext(sigs, s);
    ObservedSnoc(Roles(sigs), s.role);
    ok := !(s.signer in signers || s.keyId in keyIds);
    signers', keyIds' := signers + {s.signer}, keyIds + {s.keyId};
    observed' := observed[s.role := (if s.role in observed then observed[s.role] else 0) + 1];
  }

  ghost predicate AllEligible(rd: Readers, store: Option<map<string, TrustedKey>>, ctx: Context, sigs: seq<Signature>) {
    forall i | 0 <= i < |sigs| :: Eligible(rd, store, ctx, sigs[i])
  }

  /** The entries of a list of signatures, each None when it is not an object with exactly the keys
      of a signature. */
  predicate AllObjects(entries: seq<Option<Signature>>) {
    forall i | 0 <= i < |entries| :: entries[i].Some?
  }

  function Objects(entries: seq<Option<Signature>>): (r: seq<Signature>)
    requires AllObjects(entries)
    ensures |r| == |entries| && forall i | 0 <= i < |entries| :: entries[i] == Some(r[i])
  {
    seq(|entries|, i requires 0 <= i < |entries| => entries[i].value)
  }

  /** The loop over the signatures; with `store` None only their form is checked. */
  method ReadSignatures(rd: Readers, store: Option<map<string, TrustedKey>>, ctx: Context,
      entries: seq<Option<Signature>>)
      returns (r: Option<map<string, nat>>)
    ensures r.Some? <==>
              AllObjects(entries) && AllEligible(rd, store, ctx, Objects(entries)) && SignersDiffer(Objects(entries))
    ensures r.Some? ==> r.value == Observed(Roles(Objects(entries)))
  {
    var signers: set<string>, keyIds: set<string>, observed: map<string, nat> := {}, {}, map[];
    ghost var sigs := ObjectsOrDefault(entries);
    for k := 0 to |entries|
      invariant forall i | 0 <= i < k :: entries[i] == Some(sigs[i])
      invariant AllEligible(rd, store, ctx, sigs[..k])
      invariant Counted(sigs[..k], signers, keyIds, observed)
    {
      if entries[k].None? {
        return None;
      }
      assert sigs[..k + 1] == sigs[..k] + [sigs[k]];
      if AllObjects(entries) {
        assert Objects(entries) == sigs;
      }
      if !Eligible(rd, store, ctx, entries[k].value) {
        return None;
      }
      var separate;
      separate, signers, keyIds, observed := CountSignature(sigs[..k], signers, keyIds, observed, entries[k].value);
      if !separate {
        if SignersDiffer(sigs) {
          SignersDifferPrefix(sigs, k + 1);
        }
        return None;
      }
    }
    assert sigs[..|sigs|] == sigs;
    assert Objects(entries) == sigs;
    r := Some(observed);
  }

  ghost function ObjectsOrDefault(entries: seq<Option<Signature>>): (r: seq<Signature>)
    ensures |r| == |entries| && forall i | 0 <= i < |entries| && entries[i].Some? :: entries[i] == Some(r[i])
  {
    seq(|entries|, i requires 0 <= i < |entries| =>
      if entries[i].Some? then entries[i].value else Signature("", "", "", "", "", "", ""))
  }

  /** A list of signatures as read is admitted. */
  ghost predicate AdmittedEntries(rd: Readers, store: Option<map<string, TrustedKey>>, ctx: Context,
      entries: seq<Option<Signature>>) {
    AllObjects(entries) && Admitted(rd, store, ctx, Objects(entries))
  }

  /** `entries` is None when the signatures are not a list. */
  method CheckSignatures(rd: Readers, store: Option<map<string, TrustedKey>>, ctx: Context,
      entries: Option<seq<Option<Signature>>>)
      returns (ok: bool)
    ensures ok <==> entries.Some? && AdmittedEntries(rd, store, ctx, entries.value)
  {
    var minimum := AddUp(ctx.required);
    if entries.None? || !(minimum <= |entries.value| <= 32) {
      return false;
    }
    var observed := ReadSignatures(rd, store, ctx, entries.value);
    ok := observed.Some? && observed.value == ctx.required;
  }

  // ----- what admission means

  lemma {:induction false} SumOfObserved(roles: seq<string>)
    ensures Sum(Observed(roles)) == |roles|
  {
    if roles == [] {
      assert Observed(roles) == map[];
    } else {
      var n := |roles| - 1;
      var front, last := roles[..n], roles[n];
      SumOfObserved(front);
      ObservedSnoc(front, last);
      assert roles == front + [last];
      var o := Observed(front);
      SumWithout(Observed(roles), last);
      assert Observed(roles) - {last} == o - {last};
      if last in o {
        SumWithout(o, last);
      } else {
        assert o - {last} == o;
      }
    }
  }

  /** Each required role is filled exactly as often as required, and the total is the denominator. */
  lemma DenominatorMet(rd: Readers, store: Option<map<string, TrustedKey>>, ctx: Context, sigs: seq<Signature>)
    requires Admitted(rd, store, ctx, sigs)
    ensures |sigs| == Sum(ctx.required)
    ensures forall role | role in ctx.required :: multiset(Roles(sigs))[role] == ctx.required[role] > 0
  {
    SumOfObserved(Roles(sigs));
    forall role | role in ctx.required ensures multiset(Roles(sigs))[role] == ctx.required[role] > 0 {
      assert role in Observed(Roles(sigs));
    }
  }

  function SigningKeys(store: map<string, TrustedKey>, sigs: seq<Signature>): (r: seq<Bytes>)
    requires forall i | 0 <= i < |sigs| :: sigs[i].keyId in store
    ensures |r| == |sigs| && forall i | 0 <= i < |sigs| :: r[i] == store[sigs[i].keyId].publicKey
  {
    seq(|sigs|, i requires 0 <= i < |sigs| => store[sigs[i].keyId].publicKey)
  }

  /** The signature is by the enrolled key of its signer, which was not revoked and was valid when the
      signature was made, within the document's own window, it names the digest of the payload, and it
      verifies over the payload. */
  predicate SignedBy(rd: Readers, store: map<string, TrustedKey>, ctx: Context, s: Signature) {
    && s.keyId in store && store[s.keyId].actor == s.signer && store[s.keyId].role == s.role && !store[s.keyId].revoked
    && rd.time(s.signedAt).Some?
    && store[s.keyId].validFrom <= rd.time(s.signedAt).value < store[s.keyId].validUntil
    && ctx.created <= rd.time(s.signedAt).value < ctx.expires
    && rd.decode(s.signature).Some? && |rd.decode(s.signature).value| == 64
    && rd.verify(store[s.keyId].publicKey, rd.decode(s.signature).value, ctx.payload)
    && s.payloadSha == ctx.digest && s.role in ctx.required && s.algorithm == store[s.keyId].algorithm == "ed25519"
    && rd.token(s.signer) && rd.token(s.role) && rd.token(s.keyId)
  }

  lemma EligibleMeans(rd: Readers, store: map<string, TrustedKey>, ctx: Context, s: Signature)
    requires Eligible(rd, Some(store), ctx, s)
    ensures s.signer !in ctx.authors && s.signer != ctx.issuer && SignedBy(rd, store, ctx, s)
  {
  }

  /** Under a trust store nothing else is asked of a signature. */
  lemma EligibleExactly(rd: Readers, store: map<string, TrustedKey>, ctx: Context, s: Signature)
    ensures Eligible(rd, Some(store), ctx, s) <==>
            s.signer !in ctx.authors + {ctx.issuer} && SignedBy(rd, store, ctx, s)
  {
  }

  lemma EachEligible(rd: Readers, store: map<string, TrustedKey>, ctx: Context, sigs: seq<Signature>)
    requires AllEligible(rd, Some(store), ctx, sigs)
    ensures forall i | 0 <= i < |sigs| :: SignedBy(rd, store, ctx, sigs[i])
    ensures Elements(Signers(sigs)) !! ctx.authors + {ctx.issuer}
  {
    forall i | 0 <= i < |sigs|
      ensures SignedBy(rd, store, ctx, sigs[i]) && Signers(sigs)[i] !in ctx.authors + {ctx.issuer}
    {
      EligibleMeans(rd, store, ctx, sigs[i]);
    }
  }

  /** Under a loaded store admission means as many different people and as many different keys as the
      gate requires, none of them an author or the issuer, each verified over the one payload. */
  lemma AdmissionSeparates(rd: Readers, store: map<string, TrustedKey>, ctx: Context, sigs: seq<Signature>)
    requires StoreSound(store) && Admitted(rd, Some(store), ctx, sigs)
    ensures |Elements(Signers(sigs))| == Sum(ctx.required)
    ensures Elements(Signers(sigs)) !! ctx.authors + {ctx.issuer}
    ensures forall i | 0 <= i < |sigs| :: SignedBy(rd, store, ctx, sigs[i])
    ensures Distinct(SigningKeys(store, sigs)) && |Elements(SigningKeys(store, sigs))| == Sum(ctx.required)
  {
    DenominatorMet(rd, Some(store), ctx, sigs);
    DistinctCard(Signers(sigs));
    EachEligible(rd, store, ctx, sigs);
    KeysSeparate(store, sigs);
    DistinctCard(SigningKeys(store, sigs));
  }

  lemma KeysSeparate(store: map<string, TrustedKey>, sigs: seq<Signature>)
    requires StoreSound(store) && Distinct(KeyIds(sigs)) && forall i | 0 <= i < |sigs| :: sigs[i].keyId in store
    ensures Distinct(SigningKeys(store, sigs))
  {
    forall i, j | 0 <= i < j < |sigs| ensures SigningKeys(store, sigs)[i] != SigningKeys(store, sigs)[j] {
      assert KeyIds(sigs)[i] != KeyIds(sigs)[j];
    }
  }

  // ----- the order of the signatures does not matter

  /** A document: all its other members, and its signatures. */
  datatype Document<D> = Document(body: D, signatures: seq<Option<Signature>>)

  /** The signed payload is serialised with the signatures taken out. */
  function Payload<D>(serialize: Document<D> -> Bytes, doc: Document<D>): Bytes {
    serialize(doc.(signatures := []))
  }

  function ContextOf<D>(serialize: Document<D> -> Bytes, digest: Bytes -> string, gate: D -> Context,
      doc: Document<D>): Context {
    var payload := Payload(serialize, doc);
    gate(doc.body).(payload := payload, digest := digest(payload))
  }

  lemma PickedStillDistinct(a: seq<string>, w: seq<nat>)
    requires IsPermutation(w, |a|) && Distinct(a)
    ensures Distinct(Pick(a, w))
  {
    forall i, j | 0 <= i < j < |w| ensures Pick(a, w)[i] != Pick(a, w)[j] {
      assert w[i] != w[j];
    }
  }

  lemma PickedAdmitted(rd: Readers, store: Option<map<string, TrustedKey>>, ctx: Context, sigs: seq<Signature>,
      w: seq<nat>)
    requires IsPermutation(w, |sigs|) && Admitted(rd, store, ctx, sigs)
    ensures Admitted(rd, store, ctx, Pick(sigs, w))
  {
    var t := Pick(sigs, w);
    assert Signers(t) == Pick(Signers(sigs), w);
    assert KeyIds(t) == Pick(KeyIds(sigs), w);
    PickedStillDistinct(Signers(sigs), w);
    PickedStillDistinct(KeyIds(sigs), w);
    assert Roles(t) == Pick(Roles(sigs), w);
    PickPermutes(Roles(sigs), w);
    SameObserved(Roles(sigs), Roles(t));
  }

  lemma SameObserved(a: seq<string>, b: seq<string>)
    requires multiset(a) == multiset(b)
    ensures Observed(a) == Observed(b)
  {
    assert forall r :: (r in a <==> r in multiset(a)) && (r in b <==> r in multiset(b));
  }

  lemma PickedObjects(entries: seq<Option<Signature>>, w: seq<nat>)
    requires IsPermutation(w, |entries|) && AllObjects(entries)
    ensures AllObjects(Pick(entries, w)) && Objects(Pick(entries, w)) == Pick(Objects(entries), w)
  {
  }

  lemma ReorderedAdmitted(rd: Readers, store: Option<map<string, TrustedKey>>, ctx: Context,
                          a: seq<Option<Signature>>, b: seq<Option<Signature>>)
    requires multiset(a) == multiset(b) && AdmittedEntries(rd, store, ctx, a)
    ensures AdmittedEntries(rd, store, ctx, b)
  {
    var w := PermutationOf(a, b);
    PickedObjects(a, w);
    PickedAdmitted(rd, store, ctx, Objects(a), w);
  }

  /** Two documents that differ only in the order of their signatures are admitted alike. */
  lemma OrderIrrelevant<D>(rd: Readers, store: Option<map<string, TrustedKey>>, serialize: Document<D> -> Bytes,
                           digest: Bytes -> string, gate: D -> Context, a: Document<D>, b: Document<D>)
    requires a.body == b.body && multiset(a.signatures) == multiset(b.signatures)
    ensures AdmittedEntries(rd, store, ContextOf(serialize, digest, gate, a), a.signatures)
            <==> AdmittedEntries(rd, store, ContextOf(serialize, digest, gate, b), b.signatures)
  {
    var ctx := ContextOf(serialize, digest, gate, a);
    assert ctx == ContextOf(serialize, digest, gate, b);
    if AdmittedEntries(rd, store, ctx, a.signatures) {
      ReorderedAdmitted(rd, store, ctx, a.signatures, b.signatures);
    }
    if AdmittedEntries(rd, store, ctx, b.signatures) {
      ReorderedAdmitted(rd, store, ctx, b.signatures, a.signatures);
    }
  }
}
