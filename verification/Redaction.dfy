/** What a normalized document can reveal of the values its rules took out. */
module Redaction {
  import opened Sequences
  import opened Json
  import opened Normalizer

  /** The digest, the length and the shape of two values agree. */
  predicate SameTraits(policy: Policy, d: Json, e: Json) {
    policy.sha256(d) == policy.sha256(e) && policy.byteLength(d) == policy.byteLength(e) && Shape(d) == Shape(e)
  }

  /** Applied to values with the same traits, a secret rule leaves the same. */
  lemma SecretKeepsTraits(policy: Policy, rule: Rule, d: Json, e: Json)
    requires rule.operation.SecretPlaceholder? && Encodes(d) && Encodes(e) && SameTraits(policy, d, e)
    ensures ApplyRule(policy, rule, d) == ApplyRule(policy, rule, e)
  {
  }

  /** The two values may not be told apart by what this operation leaves. */
  predicate Hidden(policy: Policy, operation: Operation, d: Json, e: Json) {
    match operation
    case Replace(_) => true
    case SecretPlaceholder(_) => Encodes(d) && Encodes(e) && SameTraits(policy, d, e)
    case SortScalarArray => d == e
    case Remove => true
  }

  /** The documents differ only inside nodes that a selected rule hides. */
  ghost predicate AlikeOutside(policy: Policy, d: Json, e: Json, path: Path)
    decreases d
  {
    match SelectRule(policy.rules, path)
    case Error => true
    case Ok(Some(rule)) => Hidden(policy, rule.operation, d, e)
    case Ok(None) =>
      && SameShape(d, e)
      && forall i | 0 <= i < Kids(d) :: AlikeOutside(policy, Kid(d, i), Kid(e, i), path + [Name(d, i)])
  }

  lemma SameNames(d: Json, e: Json)
    requires SameShape(d, e)
    ensures Kids(d) == Kids(e) && IsScalar(d) == IsScalar(e) && d.Object? == e.Object?
    ensures forall i | 0 <= i < Kids(d) :: Name(d, i) == Name(e, i)
  {
  }

  /** The normalized document and the record of changes say nothing about a hidden value beyond the
      digest, the length and the shape of a secret: documents that differ only in hidden values have
      the same outcome. */
  lemma {:induction false} OutcomeHides(policy: Policy, d: Json, e: Json, path: Path)
    requires AlikeOutside(policy, d, e, path)
    ensures NormalizeNode(policy, d, path) == NormalizeNode(policy, e, path)
    decreases d, 1, 0
  {
    if SelectRule(policy.rules, path) == Ok(None) {
      SameNames(d, e);
      if !IsScalar(d) {
        KidsHide(policy, d, e, path, Kids(d));
      }
    }
  }

  ghost predicate KidsAlike(policy: Policy, d: Json, e: Json, path: Path) {
    && Kids(d) == Kids(e)
    && forall i | 0 <= i < Kids(d) :: Name(d, i) == Name(e, i)
         && AlikeOutside(policy, Kid(d, i), Kid(e, i), path + [Name(d, i)])
  }

  ghost predicate SameKids(policy: Policy, d: Json, e: Json, path: Path, n: nat) {
    n <= Kids(d) && n <= Kids(e) && NormalizeKids(policy, d, path, n) == NormalizeKids(policy, e, path, n)
  }

  lemma {:induction false} KidsHide(policy: Policy, d: Json, e: Json, path: Path, n: nat)
    requires KidsAlike(policy, d, e, path) && n <= Kids(d)
    ensures SameKids(policy, d, e, path, n)
    decreases d, 0, n
  {
    if n > 0 {
      KidsHide(policy, d, e, path, n - 1);
      KidHides(policy, d, e, path, n - 1);
      SameStep(policy, d, e, path, n);
    }
  }

  lemma {:induction false} KidHides(policy: Policy, d: Json, e: Json, path: Path, i: nat)
    requires KidsAlike(policy, d, e, path) && i < Kids(d)
    ensures Name(d, i) == Name(e, i)
    ensures var under := path + [Name(d, i)];
            NormalizeNode(policy, Kid(d, i), under) == NormalizeNode(policy, Kid(e, i), under)
    decreases d, 0, i
  {
    OutcomeHides(policy, Kid(d, i), Kid(e, i), path + [Name(d, i)]);
  }

  lemma SameStep(policy: Policy, d: Json, e: Json, path: Path, n: nat)
    requires 0 < n <= Kids(d) && n <= Kids(e) && Name(d, n - 1) == Name(e, n - 1)
    requires SameKids(policy, d, e, path, n - 1)
    requires var under := path + [Name(d, n - 1)];
             NormalizeNode(policy, Kid(d, n - 1), under) == NormalizeNode(policy, Kid(e, n - 1), under)
    ensures SameKids(policy, d, e, path, n)
  {
  }
}
