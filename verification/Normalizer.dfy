/** The oracle response normalizer: path rules rewrite a document, every rewrite is
    recorded, and a final pass refuses secrets that no rule covered. */
module Normalizer {
  import opened Sequences
  import opened Json
  import opened JsonPointer
  import opened StableSort

  type Path = seq<string>

  datatype Operation = Replace(replacement: Json) | SecretPlaceholder(kind: string) | SortScalarArray | Remove

  datatype Rule = Rule(segments: Path, operation: Operation, reason: string)

  /** A rewrite that was made: where, by which rule, and what it left (None when removed). */
  datatype Change = Change(path: Path, rule: Rule, result: Option<Json>)

  /** The policy, with the parts of the environment that it depends on: the digest and size of a
      canonical encoding, and the order of canonical encodings. */
  datatype Policy = Policy(
    rules: seq<Rule>,
    placeholderKey: string,
    suspicious: string -> bool,
    sha256: Json -> string,
    byteLength: Json -> string,
    before: (Json, Json) -> bool)

  datatype Result<+T> = Ok(value: T) | Error

  // ----- rules

  function Specificity(segments: Path): nat {
    if segments == [] then 0 else (if segments[0] != "*" then 1 else 0) + Specificity(segments[1..])
  }

  predicate Matches(rule: Rule, path: Path) {
    |path| == |rule.segments|
    && forall i | 0 <= i < |path| :: rule.segments[i] == "*" || rule.segments[i] == path[i]
  }

  function Matching(rules: seq<Rule>, path: Path): seq<Rule> {
    if rules == [] then []
    else (if Matches(rules[0], path) then [rules[0]] else []) + Matching(rules[1..], path)
  }

  function Highest(rules: seq<Rule>): nat {
    if rules == [] then 0
    else
      var rest := Highest(rules[1..]);
      if Specificity(rules[0].segments) > rest then Specificity(rules[0].segments) else rest
  }

  function WithSpecificity(rules: seq<Rule>, n: nat): seq<Rule> {
    if rules == [] then []
    else (if Specificity(rules[0].segments) == n then [rules[0]] else []) + WithSpecificity(rules[1..], n)
  }

  /** The most specific matching rule, if any; an error when two are equally specific. */
  function SelectRule(rules: seq<Rule>, path: Path): Result<Option<Rule>> {
    var matching := Matching(rules, path);
    if matching == [] then Ok(None)
    else
      var winners := WithSpecificity(matching, Highest(matching));
      if |winners| != 1 then Error else Ok(Some(winners[0]))
  }

  // ----- applying a rule

  /** The document has a canonical encoding: it holds JSON values only, and its numbers are finite. */
  predicate Encodes(d: Json) {
    !d.NotFinite? && !d.NotJson? && forall i | 0 <= i < Kids(d) :: Encodes(Kid(d, i))
  }

  function Shape(d: Json): string {
    match d
    case Null => "null"
    case Bool(_) => "boolean"
    case Text(_) => "string"
    case Number(_) => "number"
    case NotFinite => "number"
    case NotJson => ""
    case List(_) => "array"
    case Object(_) => "object"
  }

  function Placeholder(policy: Policy, kind: string, d: Json): Json {
    Object([(policy.placeholderKey, Object([
      ("kind", Text(kind)), ("sha256", Text(policy.sha256(d))),
      ("byte_length", Number(policy.byteLength(d))), ("value_shape", Text(Shape(d)))]))])
  }

  function ApplyRule(policy: Policy, rule: Rule, d: Json): Result<Option<Json>> {
    match rule.operation
    case Replace(replacement) => Ok(Some(replacement))
    case SecretPlaceholder(kind) => if Encodes(d) then Ok(Some(Placeholder(policy, kind, d))) else Error
    case SortScalarArray =>
      if d.List? && (forall i | 0 <= i < |d.items| :: IsScalar(d.items[i])) && Encodes(d)
      then Ok(Some(List(Sort(policy.before, d.items)))) else Error
    case Remove => Ok(None)
  }

  // ----- children by name

  function Digit(n: nat): char
    requires n < 10
  {
    "0123456789"[n]
  }

  /** `str(n)` */
  function Decimal(n: nat): (r: string)
    ensures r != ""
  {
    if n < 10 then [Digit(n)] else Decimal(n / 10) + [Digit(n % 10)]
  }

  lemma {:induction false} DecimalInjective(m: nat, n: nat)
    requires Decimal(m) == Decimal(n)
    ensures m == n
  {
    var s, t := Decimal(m), Decimal(n);
    assert s[|s| - 1] == Digit(m % 10) && t[|t| - 1] == Digit(n % 10);
    assert m % 10 == n % 10;
    if m >= 10 && n >= 10 {
      assert s[..|s| - 1] == Decimal(m / 10) && t[..|t| - 1] == Decimal(n / 10);
      DecimalInjective(m / 10, n / 10);
    }
  }

  /** The path segment of the i-th child: its key, or its index in decimal. */
  function Name(d: Json, i: nat): string
    requires i < Kids(d)
  {
    match d
    case Object(members) => members[i].0
    case List(_) => Decimal(i)
  }

  /** A list or an object like `d` holding the given named children. */
  function Rebuild(d: Json, kept: seq<(string, Json)>): Json {
    if d.Object? then Object(kept) else List(seq(|kept|, i requires 0 <= i < |kept| => kept[i].1))
  }

  /** No object has two members with the same key. */
  predicate DistinctKeys(d: Json) {
    && (d.Object? ==> forall i, j | 0 <= i < j < |d.members| :: d.members[i].0 != d.members[j].0)
    && forall i | 0 <= i < Kids(d) :: DistinctKeys(Kid(d, i))
  }

  lemma NamesDiffer(d: Json, i: nat, j: nat)
    requires DistinctKeys(d) && i < j < Kids(d)
    ensures Name(d, i) != Name(d, j)
  {
    if d.List? && Name(d, i) == Name(d, j) { DecimalInjective(i, j); }
  }

  // ----- normalization

  datatype Outcome = Outcome(value: Option<Json>, changes: seq<Change>)
  datatype Kept = Kept(kids: seq<(string, Json)>, changes: seq<Change>)

  function NormalizeNode(policy: Policy, d: Json, path: Path): Result<Outcome>
    decreases d, 1, 0
  {
    match SelectRule(policy.rules, path)
    case Error => Error
    case Ok(Some(rule)) => (
      match ApplyRule(policy, rule, d)
      case Error => Error
      case Ok(result) => Ok(Outcome(result, [Change(path, rule, result)])))
    case Ok(None) =>
      if d.NotFinite? || d.NotJson? then Error
      else if IsScalar(d) then Ok(Outcome(Some(d), []))
      else match NormalizeKids(policy, d, path, Kids(d))
        case Error => Error
        case Ok(kept) => Ok(Outcome(Some(Rebuild(d, kept.kids)), kept.changes))
  }

  /** The first `n` children normalized in order, without the removed ones. */
  function NormalizeKids(policy: Policy, d: Json, path: Path, n: nat): Result<Kept>
    requires n <= Kids(d)
    decreases d, 0, n
  {
    if n == 0 then Ok(Kept([], []))
    else match NormalizeKids(policy, d, path, n - 1)
      case Error => Error
      case Ok(kept) =>
        match NormalizeNode(policy, Kid(d, n - 1), path + [Name(d, n - 1)])
        case Error => Error
        case Ok(o) => Ok(Kept(
            kept.kids + (if o.value.Some? then [(Name(d, n - 1), o.value.value)] else []),
            kept.changes + o.changes))
  }

  // ----- the recorded changes say where

  predicate Extends(path: Path, longer: Path) {
    |path| <= |longer| && longer[..|path|] == path
  }

  /** Neither path is at or under the other. */
  predicate Apart(p: Path, q: Path) {
    !Extends(p, q) && !Extends(q, p)
  }

  /** The changes are at or under `path`, and pairwise apart: distinct and prefix-free. */
  ghost predicate Scattered(changes: seq<Change>, path: Path) {
    && (forall i | 0 <= i < |changes| :: Extends(path, changes[i].path))
    && (forall i, j | 0 <= i < j < |changes| :: Apart(changes[i].path, changes[j].path))
  }

  lemma ExtendsByName(path: Path, name: string, p: Path)
    ensures Extends(path + [name], p) ==> Extends(path, p) && |p| > |path| && p[|path|] == name
  {
    if Extends(path + [name], p) {
      assert p[..|path| + 1][..|path|] == p[..|path|] == path;
      assert p[..|path| + 1][|path|] == name;
    }
  }

  lemma DifferentNamesApart(path: Path, a: string, b: string, p: Path, q: Path)
    requires a != b && Extends(path + [a], p) && Extends(path + [b], q)
    ensures Apart(p, q)
  {
    ExtendsByName(path, a, p);
    ExtendsByName(path, b, q);
  }

  /** The path is at or under one of the first `n` children of the node at `path`. */
  ghost predicate UnderKid(d: Json, path: Path, n: nat, p: Path)
    requires n <= Kids(d)
  {
    exists i :: 0 <= i < n && Extends(path + [Name(d, i)], p)
  }

  ghost predicate AllUnderKids(d: Json, path: Path, n: nat, changes: seq<Change>)
    requires n <= Kids(d)
  {
    forall k | 0 <= k < |changes| :: UnderKid(d, path, n, changes[k].path)
  }

  lemma {:induction false} ChangesScattered(policy: Policy, d: Json, path: Path)
    requires DistinctKeys(d) && NormalizeNode(policy, d, path).Ok?
    ensures Scattered(NormalizeNode(policy, d, path).value.changes, path)
    decreases d, 1, 0
  {
    if SelectRule(policy.rules, path) == Ok(None) && !IsScalar(d) {
      KidChangesScattered(policy, d, path, Kids(d));
    }
  }

  /** Changes under the first `n` children: each is under its own child. */
  lemma {:induction false} KidChangesScattered(policy: Policy, d: Json, path: Path, n: nat)
    requires n <= Kids(d) && DistinctKeys(d) && NormalizeKids(policy, d, path, n).Ok?
    ensures var changes := NormalizeKids(policy, d, path, n).value.changes;
            Scattered(changes, path) && AllUnderKids(d, path, n, changes)
    decreases d, 0, n
  {
    if n > 0 {
      KidChangesScattered(policy, d, path, n - 1);
      var name := Name(d, n - 1);
      ChangesScattered(policy, Kid(d, n - 1), path + [name]);
      var earlier := NormalizeKids(policy, d, path, n - 1).value.changes;
      var latest := NormalizeNode(policy, Kid(d, n - 1), path + [name]).value.changes;
      JoinScattered(d, path, n - 1, earlier, latest);
    }
  }

  lemma JoinScattered(d: Json, path: Path, n: nat, earlier: seq<Change>, latest: seq<Change>)
    requires n < Kids(d) && DistinctKeys(d)
    requires Scattered(earlier, path) && Scattered(latest, path + [Name(d, n)])
    requires AllUnderKids(d, path, n, earlier)
    ensures Scattered(earlier + latest, path) && AllUnderKids(d, path, n + 1, earlier + latest)
  {
    var all := earlier + latest;
    forall k | 0 <= k < |all| ensures UnderKid(d, path, n + 1, all[k].path) {
      if k < |earlier| {
        assert UnderKid(d, path, n, earlier[k].path);
        var i :| 0 <= i < n && Extends(path + [Name(d, i)], earlier[k].path);
        assert Extends(path + [Name(d, i)], all[k].path);
      } else {
        assert Extends(path + [Name(d, n)], all[k].path);
      }
    }
    forall i | 0 <= i < |all| ensures Extends(path, all[i].path) {
      if i >= |earlier| { ExtendsByName(path, Name(d, n), all[i].path); }
    }
    forall i, j | 0 <= i < j < |all| ensures Apart(all[i].path, all[j].path) {
      if i < |earlier| <= j {
        assert UnderKid(d, path, n, earlier[i].path);
        var k :| 0 <= k < n && Extends(path + [Name(d, k)], earlier[i].path);
        NamesDiffer(d, k, n);
        DifferentNamesApart(path, Name(d, k), Name(d, n), all[i].path, all[j].path);
      }
    }
  }

  // ----- the document is rewritten exactly at the recorded changes

  function Lookup(changes: seq<Change>, path: Path): Option<Change> {
    if changes == [] then None
    else if changes[0].path == path then Some(changes[0])
    else Lookup(changes[1..], path)
  }

  /** The document rewritten at the given changes and nowhere else; no rules are consulted. */
  function Rewrite(d: Json, path: Path, changes: seq<Change>): Option<Json>
    decreases d, 1, 0
  {
    match Lookup(changes, path)
    case Some(change) => change.result
    case None => if IsScalar(d) then Some(d) else Some(Rebuild(d, RewriteKids(d, path, changes, Kids(d))))
  }

  function RewriteKids(d: Json, path: Path, changes: seq<Change>, n: nat): seq<(string, Json)>
    requires n <= Kids(d)
    decreases d, 0, n
  {
    if n == 0 then []
    else
      var kid := Rewrite(Kid(d, n - 1), path + [Name(d, n - 1)], changes);
      RewriteKids(d, path, changes, n - 1) + (if kid.Some? then [(Name(d, n - 1), kid.value)] else [])
  }

  lemma {:induction false} LookupConcat(a: seq<Change>, b: seq<Change>, path: Path)
    ensures Lookup(a + b, path) == if Lookup(a, path).Some? then Lookup(a, path) else Lookup(b, path)
  {
    if a == [] {
      assert a + b == b;
    } else {
      LookupConcat(a[1..], b, path);
      assert (a + b)[1..] == a[1..] + b;
    }
  }

  lemma {:induction false} LookupMiss(changes: seq<Change>, path: Path)
    requires forall i | 0 <= i < |changes| :: changes[i].path != path
    ensures Lookup(changes, path) == None
  {
    if changes != [] { LookupMiss(changes[1..], path); }
  }

  /** `changes` say about the paths at or under `path` what `local` says. */
  ghost predicate Agree(changes: seq<Change>, local: seq<Change>, path: Path) {
    forall p | Extends(path, p) :: Lookup(changes, p) == Lookup(local, p)
  }

  ghost predicate AgreeOnKids(changes: seq<Change>, local: seq<Change>, d: Json, path: Path, n: nat)
    requires n <= Kids(d)
  {
    forall i | 0 <= i < n :: Agree(changes, local, path + [Name(d, i)])
  }

  lemma AgreeBelow(changes: seq<Change>, local: seq<Change>, d: Json, path: Path)
    requires Agree(changes, local, path)
    ensures AgreeOnKids(changes, local, d, path, Kids(d))
  {
    forall i | 0 <= i < Kids(d) ensures Agree(changes, local, path + [Name(d, i)]) {
      forall p | Extends(path + [Name(d, i)], p) ensures Lookup(changes, p) == Lookup(local, p) {
        ExtendsByName(path, Name(d, i), p);
      }
    }
  }

  lemma {:induction false} NormalizeIsRewrite(policy: Policy, d: Json, path: Path, changes: seq<Change>)
    requires DistinctKeys(d) && NormalizeNode(policy, d, path).Ok?
    requires Agree(changes, NormalizeNode(policy, d, path).value.changes, path)
    ensures NormalizeNode(policy, d, path).value.value == Rewrite(d, path, changes)
    decreases d, 1, 0
  {
    var o := NormalizeNode(policy, d, path).value;
    assert Extends(path, path) by { assert path[..|path|] == path; }
    assert Lookup(changes, path) == Lookup(o.changes, path);
    if SelectRule(policy.rules, path) == Ok(None) && !IsScalar(d) {
      var kept := NormalizeKids(policy, d, path, Kids(d)).value;
      KidChangesScattered(policy, d, path, Kids(d));
      NotUnderKids(d, path, kept.changes);
      LookupMiss(kept.changes, path);
      AgreeBelow(changes, kept.changes, d, path);
      KidsAreRewritten(policy, d, path, Kids(d), changes);
    }
  }

  lemma NotUnderKids(d: Json, path: Path, changes: seq<Change>)
    requires AllUnderKids(d, path, Kids(d), changes)
    ensures forall k | 0 <= k < |changes| :: changes[k].path != path
  {
    forall k | 0 <= k < |changes| ensures changes[k].path != path {
      assert UnderKid(d, path, Kids(d), changes[k].path);
      var i :| 0 <= i < Kids(d) && Extends(path + [Name(d, i)], changes[k].path);
    }
  }

  /** No change under an earlier child is at a path under the last one. */
  lemma EarlierMisses(d: Json, path: Path, n: nat, earlier: seq<Change>, p: Path)
    requires n < Kids(d) && DistinctKeys(d) && Extends(path + [Name(d, n)], p)
    requires forall k | 0 <= k < |earlier| :: UnderKid(d, path, n, earlier[k].path)
    ensures Lookup(earlier, p) == Lookup([], p)
  {
    forall k | 0 <= k < |earlier| ensures earlier[k].path != p {
      assert UnderKid(d, path, n, earlier[k].path);
      var i :| 0 <= i < n && Extends(path + [Name(d, i)], earlier[k].path);
      NamesDiffer(d, i, n);
      ExtendsByName(path, Name(d, i), earlier[k].path);
      ExtendsByName(path, Name(d, n), p);
    }
    LookupMiss(earlier, p);
  }

  /** Among the changes under all `n` first children, those under the last one are its own. */
  lemma LastKidAgrees(policy: Policy, d: Json, path: Path, n: nat, changes: seq<Change>)
    requires 0 < n <= Kids(d) && DistinctKeys(d) && NormalizeKids(policy, d, path, n).Ok?
    requires AgreeOnKids(changes, NormalizeKids(policy, d, path, n).value.changes, d, path, n)
    ensures Agree(changes, NormalizeNode(policy, Kid(d, n - 1), path + [Name(d, n - 1)]).value.changes,
        path + [Name(d, n - 1)])
    ensures AgreeOnKids(changes, NormalizeKids(policy, d, path, n - 1).value.changes, d, path, n - 1)
  {
    var name := Name(d, n - 1);
    var earlier := NormalizeKids(policy, d, path, n - 1).value.changes;
    var latest := NormalizeNode(policy, Kid(d, n - 1), path + [name]).value.changes;
    KidChangesScattered(policy, d, path, n - 1);
    ChangesScattered(policy, Kid(d, n - 1), path + [name]);
    assert NormalizeKids(policy, d, path, n).value.changes == earlier + latest;
    SplitAgreement(d, path, n - 1, changes, earlier, latest);
  }

  lemma SplitAgreement(d: Json, path: Path, n: nat, changes: seq<Change>, earlier: seq<Change>, latest: seq<Change>)
    requires n < Kids(d) && DistinctKeys(d) && AllUnderKids(d, path, n, earlier)
        && Scattered(latest, path + [Name(d, n)])
    requires AgreeOnKids(changes, earlier + latest, d, path, n + 1)
    ensures Agree(changes, latest, path + [Name(d, n)]) && AgreeOnKids(changes, earlier, d, path, n)
  {
    forall p | Extends(path + [Name(d, n)], p) ensures Lookup(changes, p) == Lookup(latest, p) {
      assert Agree(changes, earlier + latest, path + [Name(d, n)]);
      LookupConcat(earlier, latest, p);
      EarlierMisses(d, path, n, earlier, p);
    }
    forall i | 0 <= i < n ensures Agree(changes, earlier, path + [Name(d, i)]) {
      EarlierKidAgrees(d, path, n, i, changes, earlier, latest);
    }
  }

  lemma EarlierKidAgrees(d: Json, path: Path, n: nat, i: nat, changes: seq<Change>, earlier: seq<Change>,
      latest: seq<Change>)
    requires i < n < Kids(d) && DistinctKeys(d) && Scattered(latest, path + [Name(d, n)])
    requires Agree(changes, earlier + latest, path + [Name(d, i)])
    ensures Agree(changes, earlier, path + [Name(d, i)])
  {
    forall p | Extends(path + [Name(d, i)], p) ensures Lookup(changes, p) == Lookup(earlier, p) {
      LookupConcat(earlier, latest, p);
      forall k | 0 <= k < |latest| ensures latest[k].path != p {
        NamesDiffer(d, i, n);
        ExtendsByName(path, Name(d, i), p);
        ExtendsByName(path, Name(d, n), latest[k].path);
      }
      LookupMiss(latest, p);
    }
  }

  lemma {:induction false} KidsAreRewritten(policy: Policy, d: Json, path: Path, n: nat, changes: seq<Change>)
    requires n <= Kids(d) && DistinctKeys(d) && NormalizeKids(policy, d, path, n).Ok?
    requires AgreeOnKids(changes, NormalizeKids(policy, d, path, n).value.changes, d, path, n)
    ensures NormalizeKids(policy, d, path, n).value.kids == RewriteKids(d, path, changes, n)
    decreases d, 0, n
  {
    if n > 0 {
      LastKidAgrees(policy, d, path, n, changes);
      KidsAreRewritten(policy, d, path, n - 1, changes);
      NormalizeIsRewrite(policy, Kid(d, n - 1), path + [Name(d, n - 1)], changes);
    }
  }

  /** A part of the document with no change at or under it is kept as it is. */
  lemma {:induction false} UntouchedIsKept(d: Json, path: Path, changes: seq<Change>)
    requires forall i | 0 <= i < |changes| :: !Extends(path, changes[i].path)
    ensures Rewrite(d, path, changes) == Some(d)
    decreases d, 1, 0
  {
    assert path[..|path|] == path;
    LookupMiss(changes, path);
    if !IsScalar(d) {
      UntouchedKidsAreKept(d, path, changes, Kids(d));
      var kept := RewriteKids(d, path, changes, Kids(d));
      if d.Object? {
        assert kept == d.members;
      } else {
        assert Rebuild(d, kept).items == d.items;
      }
    }
  }

  lemma {:induction false} UntouchedKidsAreKept(d: Json, path: Path, changes: seq<Change>, n: nat)
    requires n <= Kids(d) && forall i | 0 <= i < |changes| :: !Extends(path, changes[i].path)
    ensures var kept := RewriteKids(d, path, changes, n);
            |kept| == n && forall i | 0 <= i < n :: kept[i] == (Name(d, i), Kid(d, i))
    decreases d, 0, n
  {
    if n > 0 {
      var under := path + [Name(d, n - 1)];
      forall i | 0 <= i < |changes| ensures !Extends(under, changes[i].path) {
        ExtendsByName(path, Name(d, n - 1), changes[i].path);
      }
      UntouchedKidsAreKept(d, path, changes, n - 1);
      UntouchedIsKept(Kid(d, n - 1), under, changes);
    }
  }

  // ----- which nodes change: the topmost ones that a rule selects

  /** `v` is the node of `d` under the names in `path`. */
  ghost predicate IsNode(d: Json, path: Path, v: Json)
    decreases path
  {
    if path == [] then v == d
    else exists i :: 0 <= i < Kids(d) && Name(d, i) == path[0] && IsNode(Kid(d, i), path[1..], v)
  }

  /** The node `v` is reached by the traversal: no rule is selected for anything above it. */
  ghost predicate Reached(policy: Policy, d: Json, base: Path, suffix: Path, v: Json) {
    && IsNode(d, suffix, v)
    && forall k | 0 <= k < |suffix| :: SelectRule(policy.rules, base + suffix[..k]) == Ok(None)
  }

  lemma ReachedBelow(policy: Policy, d: Json, base: Path, i: nat, suffix: Path, v: Json)
    requires SelectRule(policy.rules, base) == Ok(None) && i < Kids(d)
    requires Reached(policy, Kid(d, i), base + [Name(d, i)], suffix, v)
    ensures Reached(policy, d, base, [Name(d, i)] + suffix, v)
    ensures base + ([Name(d, i)] + suffix) == base + [Name(d, i)] + suffix
  {
    var longer := [Name(d, i)] + suffix;
    assert longer[1..] == suffix;
    assert IsNode(d, longer, v);
    forall k | 0 <= k < |longer| ensures SelectRule(policy.rules, base + longer[..k]) == Ok(None) {
      if k == 0 {
        assert base + longer[..0] == base;
      } else {
        assert base + longer[..k] == base + [Name(d, i)] + suffix[..k - 1];
      }
    }
  }

  lemma ReachedInto(policy: Policy, d: Json, base: Path, suffix: Path, v: Json) returns (i: nat)
    requires suffix != [] && Reached(policy, d, base, suffix, v)
    ensures SelectRule(policy.rules, base) == Ok(None) && i < Kids(d) && Name(d, i) == suffix[0]
    ensures Reached(policy, Kid(d, i), base + [Name(d, i)], suffix[1..], v)
    ensures base + [Name(d, i)] + suffix[1..] == base + suffix
  {
    assert base + suffix[..0] == base;
    i :| i < Kids(d) && Name(d, i) == suffix[0] && IsNode(Kid(d, i), suffix[1..], v);
    var rest := suffix[1..];
    forall k | 0 <= k < |rest| ensures SelectRule(policy.rules, base + [Name(d, i)] + rest[..k]) == Ok(None) {
      PathInto(base, suffix, k);
    }
    PathThrough(base, suffix);
  }

  lemma PathThrough(base: Path, suffix: Path)
    requires suffix != []
    ensures base + [suffix[0]] + suffix[1..] == base + suffix
  {
    assert suffix == [suffix[0]] + suffix[1..];
  }

  lemma PathInto(base: Path, suffix: Path, k: nat)
    requires k < |suffix|
    ensures base + [suffix[0]] + suffix[1..][..k] == base + suffix[..k + 1]
  {
    assert suffix[..k + 1] == [suffix[0]] + suffix[1..][..k];
  }

  /** A change is the selected rule applied to a node that is reached. */
  ghost predicate MadeAt(policy: Policy, d: Json, base: Path, suffix: Path, v: Json, change: Change) {
    && Reached(policy, d, base, suffix, v) && change.path == base + suffix
    && SelectRule(policy.rules, change.path) == Ok(Some(change.rule))
    && ApplyRule(policy, change.rule, v) == Ok(change.result)
  }

  ghost predicate Made(policy: Policy, d: Json, base: Path, change: Change) {
    exists suffix, v :: MadeAt(policy, d, base, suffix, v, change)
  }

  lemma MadeAbove(policy: Policy, d: Json, base: Path, i: nat, change: Change)
    requires SelectRule(policy.rules, base) == Ok(None)
    requires i < Kids(d) && Made(policy, Kid(d, i), base + [Name(d, i)], change)
    ensures Made(policy, d, base, change)
  {
    var suffix, v :| MadeAt(policy, Kid(d, i), base + [Name(d, i)], suffix, v, change);
    ReachedBelow(policy, d, base, i, suffix, v);
    assert MadeAt(policy, d, base, [Name(d, i)] + suffix, v, change);
  }

  lemma {:induction false} ChangesAreMade(policy: Policy, d: Json, base: Path)
    requires NormalizeNode(policy, d, base).Ok?
    ensures forall change | change in NormalizeNode(policy, d, base).value.changes :: Made(policy, d, base, change)
    decreases d, 1, 0
  {
    if SelectRule(policy.rules, base) == Ok(None) {
      if !IsScalar(d) {
        KidChangesAreMade(policy, d, base, Kids(d));
      }
    } else {
      var change := NormalizeNode(policy, d, base).value.changes[0];
      assert base + [] == base;
      assert MadeAt(policy, d, base, [], d, change);
    }
  }

  lemma {:induction false} KidChangesAreMade(policy: Policy, d: Json, base: Path, n: nat)
    requires n <= Kids(d) && NormalizeKids(policy, d, base, n).Ok? && SelectRule(policy.rules, base) == Ok(None)
    ensures forall change | change in NormalizeKids(policy, d, base, n).value.changes :: Made(policy, d, base, change)
    decreases d, 0, n
  {
    if n > 0 {
      KidChangesAreMade(policy, d, base, n - 1);
      var under := base + [Name(d, n - 1)];
      ChangesAreMade(policy, Kid(d, n - 1), under);
      forall change | change in NormalizeNode(policy, Kid(d, n - 1), under).value.changes
        ensures Made(policy, d, base, change)
      {
        MadeAbove(policy, d, base, n - 1, change);
      }
    }
  }

  /** Every rule selected for a node that is reached is applied there and recorded. */
  lemma {:induction false} ReachedIsChanged(policy: Policy, d: Json, base: Path, suffix: Path, v: Json, change: Change)
    requires NormalizeNode(policy, d, base).Ok? && MadeAt(policy, d, base, suffix, v, change)
    ensures change in NormalizeNode(policy, d, base).value.changes
    decreases suffix
  {
    if suffix == [] {
      assert base + suffix == base;
    } else {
      var i := ReachedInto(policy, d, base, suffix, v);
      KidOutcome(policy, d, base, i);
      ReachedIsChanged(policy, Kid(d, i), base + [Name(d, i)], suffix[1..], v, change);
    }
  }

  /** The recorded changes are exactly the selected rules at the nodes that are reached. */
  lemma ChangesAreExact(policy: Policy, d: Json, base: Path, change: Change)
    requires NormalizeNode(policy, d, base).Ok?
    ensures change in NormalizeNode(policy, d, base).value.changes <==> Made(policy, d, base, change)
  {
    ChangesAreMade(policy, d, base);
    if Made(policy, d, base, change) {
      var suffix, v :| MadeAt(policy, d, base, suffix, v, change);
      ReachedIsChanged(policy, d, base, suffix, v, change);
    }
  }

  // ----- when the traversal fails

  /** What the traversal asks of a node it reaches: one rule at most, which applies, or else a value
      that can be kept. */
  predicate NodeAccepted(policy: Policy, path: Path, v: Json) {
    match SelectRule(policy.rules, path)
    case Error => false
    case Ok(Some(rule)) => ApplyRule(policy, rule, v).Ok?
    case Ok(None) => !v.NotFinite? && !v.NotJson?
  }

  lemma {:induction false} ReachedIsAccepted(policy: Policy, d: Json, base: Path, suffix: Path, v: Json)
    requires NormalizeNode(policy, d, base).Ok? && Reached(policy, d, base, suffix, v)
    ensures NodeAccepted(policy, base + suffix, v)
    decreases suffix
  {
    if suffix == [] {
      assert base + suffix == base;
    } else {
      var i := ReachedInto(policy, d, base, suffix, v);
      KidOutcome(policy, d, base, i);
      ReachedIsAccepted(policy, Kid(d, i), base + [Name(d, i)], suffix[1..], v);
    }
  }

  lemma {:induction false} FailingNode(policy: Policy, d: Json, base: Path) returns (suffix: Path, v: Json)
    requires NormalizeNode(policy, d, base).Error?
    ensures Reached(policy, d, base, suffix, v) && !NodeAccepted(policy, base + suffix, v)
    decreases d, 1, 0
  {
    if NodeAccepted(policy, base, d) {
      var i := FailingKid(policy, d, base, Kids(d));
      var rest;
      rest, v := FailingNode(policy, Kid(d, i), base + [Name(d, i)]);
      ReachedBelow(policy, d, base, i, rest, v);
      suffix := [Name(d, i)] + rest;
    } else {
      suffix, v := [], d;
      assert base + suffix == base;
    }
  }

  lemma {:induction false} FailingKid(policy: Policy, d: Json, base: Path, n: nat) returns (i: nat)
    requires n <= Kids(d) && NormalizeKids(policy, d, base, n).Error?
    ensures i < n && NormalizeNode(policy, Kid(d, i), base + [Name(d, i)]).Error?
    decreases n
  {
    if NormalizeKids(policy, d, base, n - 1).Error? {
      i := FailingKid(policy, d, base, n - 1);
    } else {
      i := n - 1;
    }
  }

  /** The traversal succeeds exactly when every node it reaches is accepted. */
  lemma TraversalIsExact(policy: Policy, d: Json, base: Path)
    ensures NormalizeNode(policy, d, base).Ok? <==>
            forall suffix, v | Reached(policy, d, base, suffix, v) :: NodeAccepted(policy, base + suffix, v)
  {
    if NormalizeNode(policy, d, base).Ok? {
      forall suffix, v | Reached(policy, d, base, suffix, v) ensures NodeAccepted(policy, base + suffix, v) {
        ReachedIsAccepted(policy, d, base, suffix, v);
      }
    } else {
      var suffix, v := FailingNode(policy, d, base);
    }
  }

  ghost predicate Covered(changes: seq<Change>, path: Path) {
    exists k :: 0 <= k < |changes| && Extends(changes[k].path, path)
  }

  /** Every node is at or under a change, or no rule matches it. */
  lemma {:induction false} ChangesAreComplete(policy: Policy, d: Json, base: Path, suffix: Path, v: Json)
    requires NormalizeNode(policy, d, base).Ok? && IsNode(d, suffix, v)
    ensures Covered(NormalizeNode(policy, d, base).value.changes, base + suffix)
         || SelectRule(policy.rules, base + suffix) == Ok(None)
    decreases suffix
  {
    if SelectRule(policy.rules, base).value.Some? {
      CoveredByOwnRule(policy, d, base, suffix);
    } else if suffix == [] {
      assert base + suffix == base;
    } else {
      var i :| 0 <= i < Kids(d) && Name(d, i) == suffix[0] && IsNode(Kid(d, i), suffix[1..], v);
      var under := base + [suffix[0]];
      PathThrough(base, suffix);
      KidOutcome(policy, d, base, i);
      ChangesAreComplete(policy, Kid(d, i), under, suffix[1..], v);
      CoveredByMore(NormalizeNode(policy, Kid(d, i), under).value.changes,
        NormalizeNode(policy, d, base).value.changes, base + suffix);
    }
  }

  lemma KidOutcome(policy: Policy, d: Json, base: Path, i: nat)
    requires NormalizeNode(policy, d, base).Ok? && SelectRule(policy.rules, base) == Ok(None) && i < Kids(d)
    ensures NormalizeNode(policy, Kid(d, i), base + [Name(d, i)]).Ok?
    ensures forall change | change in NormalizeNode(policy, Kid(d, i), base + [Name(d, i)]).value.changes ::
              change in NormalizeNode(policy, d, base).value.changes
  {
    KidChangesIncluded(policy, d, base, i, Kids(d));
  }

  lemma CoveredByOwnRule(policy: Policy, d: Json, base: Path, suffix: Path)
    requires NormalizeNode(policy, d, base).Ok? && SelectRule(policy.rules, base).Ok?
    requires SelectRule(policy.rules, base).value.Some?
    ensures Covered(NormalizeNode(policy, d, base).value.changes, base + suffix)
  {
    var changes := NormalizeNode(policy, d, base).value.changes;
    assert (base + suffix)[..|base|] == base;
    assert Extends(changes[0].path, base + suffix);
  }

  lemma CoveredByMore(some: seq<Change>, more: seq<Change>, path: Path)
    requires forall change | change in some :: change in more
    ensures Covered(some, path) ==> Covered(more, path)
  {
    if Covered(some, path) {
      var k :| 0 <= k < |some| && Extends(some[k].path, path);
      assert some[k] in more;
    }
  }

  lemma {:induction false} KidChangesIncluded(policy: Policy, d: Json, base: Path, i: nat, n: nat)
    requires i < n <= Kids(d) && NormalizeKids(policy, d, base, n).Ok?
    ensures NormalizeNode(policy, Kid(d, i), base + [Name(d, i)]).Ok?
    ensures forall change | change in NormalizeNode(policy, Kid(d, i), base + [Name(d, i)]).value.changes ::
              change in NormalizeKids(policy, d, base, n).value.changes
    decreases n
  {
    if i < n - 1 { KidChangesIncluded(policy, d, base, i, n - 1); }
  }

  // ----- the selected rule is the single most specific one that matches

  lemma {:induction false} MatchingMembers(rules: seq<Rule>, path: Path, rule: Rule)
    ensures rule in Matching(rules, path) <==> rule in rules && Matches(rule, path)
  {
    if rules != [] { MatchingMembers(rules[1..], path, rule); }
  }

  lemma {:induction false} HighestBounds(rules: seq<Rule>, rule: Rule)
    requires rule in rules
    ensures Specificity(rule.segments) <= Highest(rules)
  {
    if rule != rules[0] { HighestBounds(rules[1..], rule); }
  }

  lemma {:induction false} HighestReached(rules: seq<Rule>)
    requires rules != []
    ensures WithSpecificity(rules, Highest(rules)) != []
  {
    if Specificity(rules[0].segments) < Highest(rules) {
      assert Highest(rules) == Highest(rules[1..]);
      if rules[1..] != [] { HighestReached(rules[1..]); }
    }
  }

  lemma {:induction false} WinnerMembers(rules: seq<Rule>, n: nat, rule: Rule)
    ensures rule in WithSpecificity(rules, n) <==> rule in rules && Specificity(rule.segments) == n
  {
    if rules != [] { WinnerMembers(rules[1..], n, rule); }
  }

  /** No rule is selected exactly when none matches; a selected rule matches and every other
      matching rule is strictly less specific; ambiguity means two rules share the top place. */
  lemma SelectedIsMostSpecific(rules: seq<Rule>, path: Path)
    ensures SelectRule(rules, path) == Ok(None) <==> forall rule | rule in rules :: !Matches(rule, path)
    ensures forall rule | SelectRule(rules, path) == Ok(Some(rule)) ::
              && rule in rules && Matches(rule, path)
              && forall other | other in rules && Matches(other, path) && other != rule ::
                   Specificity(other.segments) < Specificity(rule.segments)
    ensures SelectRule(rules, path) == Error ==>
              var matching := Matching(rules, path);
              |WithSpecificity(matching, Highest(matching))| >= 2
  {
    var matching := Matching(rules, path);
    forall rule ensures rule in matching <==> rule in rules && Matches(rule, path) {
      MatchingMembers(rules, path, rule);
    }
    if matching != [] {
      assert matching[0] in matching;
      var top := Highest(matching);
      var winners := WithSpecificity(matching, top);
      HighestReached(matching);
      if |winners| == 1 {
        var rule := winners[0];
        WinnerMembers(matching, top, rule);
        forall other | other in rules && Matches(other, path) && other != rule
          ensures Specificity(other.segments) < Specificity(rule.segments)
        {
          HighestBounds(matching, other);
          WinnerMembers(matching, top, other);
        }
      }
    }
  }

  /** A literal in place of a wildcard makes a rule more specific by one. */
  lemma {:induction false} LiteralRaises(segments: Path, i: nat, literal: string)
    requires i < |segments| && segments[i] == "*" && literal != "*"
    ensures Specificity(segments[i := literal]) == Specificity(segments) + 1
  {
    var more := segments[i := literal];
    if i == 0 {
      assert more[1..] == segments[1..];
    } else {
      assert more[1..] == segments[1..][i - 1 := literal];
      LiteralRaises(segments[1..], i - 1, literal);
    }
  }

  /** Only wildcards count nothing. */
  lemma {:induction false} SpecificityBounds(segments: Path)
    ensures Specificity(segments) <= |segments|
    ensures Specificity(segments) == |segments| <==> "*" !in segments
    ensures Specificity(segments) == 0 <==> forall i | 0 <= i < |segments| :: segments[i] == "*"
  {
    if segments != [] {
      SpecificityBounds(segments[1..]);
      assert segments == [segments[0]] + segments[1..];
    }
  }

  /** The path with wildcards in these places. */
  function Starred(path: Path, places: set<nat>): (r: Path)
    ensures |r| == |path| && forall i | 0 <= i < |path| :: r[i] == if i in places then "*" else path[i]
  {
    seq(|path|, i requires 0 <= i < |path| => if i in places then "*" else path[i])
  }

  /** The rules that match a path are those made from it by putting wildcards somewhere. */
  lemma MatchesMeans(rule: Rule, path: Path)
    ensures Matches(rule, path) <==> exists places :: rule.segments == Starred(path, places)
  {
    if Matches(rule, path) {
      var places := set i: nat | i < |path| && rule.segments[i] == "*";
      assert rule.segments == Starred(path, places);
    }
  }

  // ----- no secret survives outside a placeholder

  predicate HasKey(members: seq<(string, Json)>, key: string) {
    exists i :: 0 <= i < |members| && members[i].0 == key
  }

  predicate IsPlaceholder(policy: Policy, d: Json) {
    && d.Object? && |d.members| == 1 && d.members[0].0 == policy.placeholderKey
    && var body := d.members[0].1;
       body.Object? && HasKey(body.members, "kind") && HasKey(body.members, "sha256")
       && HasKey(body.members, "byte_length") && HasKey(body.members, "value_shape")
  }

  /** The member is not a raw value under a suspicious key. */
  predicate Harmless(policy: Policy, key: string, child: Json) {
    policy.suspicious(key) ==> child.Null? || IsPlaceholder(policy, child)
  }

  /** The validation pass. */
  predicate NoUnmatchedSecrets(policy: Policy, d: Json) {
    IsPlaceholder(policy, d)
    || forall i | 0 <= i < Kids(d) ::
         (d.Object? ==> Harmless(policy, d.members[i].0, d.members[i].1)) && NoUnmatchedSecrets(policy, Kid(d, i))
  }

  /** `v` is a node of `d` that is not inside a placeholder. */
  ghost predicate Exposed(policy: Policy, d: Json, v: Json)
    decreases d
  {
    v == d
    || (!IsPlaceholder(policy, d) && exists i :: 0 <= i < Kids(d) && Exposed(policy, Kid(d, i), v))
  }

  /** Validation passes exactly when every object outside the placeholders has only harmless members. */
  lemma {:induction false} ValidationIsExact(policy: Policy, d: Json)
    ensures NoUnmatchedSecrets(policy, d) <==>
              forall v, i | Exposed(policy, d, v) && v.Object? && !IsPlaceholder(policy, v) && 0 <= i < |v.members| ::
                Harmless(policy, v.members[i].0, v.members[i].1)
    decreases d
  {
    forall i | 0 <= i < Kids(d)
      ensures NoUnmatchedSecrets(policy, Kid(d, i)) <==>
                forall v, k | Exposed(policy, Kid(d, i), v) && v.Object? && !IsPlaceholder(policy, v)
                    && 0 <= k < |v.members| ::
                  Harmless(policy, v.members[k].0, v.members[k].1)
    {
      ValidationIsExact(policy, Kid(d, i));
    }
    if !IsPlaceholder(policy, d) && !NoUnmatchedSecrets(policy, d) {
      var i :| 0 <= i < Kids(d)
        && !((d.Object? ==> Harmless(policy, d.members[i].0, d.members[i].1)) && NoUnmatchedSecrets(policy, Kid(d, i)));
      if NoUnmatchedSecrets(policy, Kid(d, i)) {
        assert Exposed(policy, d, d);
      } else {
        var v, k :| Exposed(policy, Kid(d, i), v) && v.Object? && !IsPlaceholder(policy, v) && 0 <= k < |v.members|
          && !Harmless(policy, v.members[k].0, v.members[k].1);
        assert Exposed(policy, d, v);
      }
    }
  }

  // ----- what a rule leaves

  predicate Holds(d: Json, key: string, value: Json) {
    d.Object? && exists i :: 0 <= i < |d.members| && d.members[i] == (key, value)
  }

  /** `name` is the name of the JSON type of `d`. */
  predicate HasShape(d: Json, name: string) {
    && (name == "null" <==> d.Null?) && (name == "boolean" <==> d.Bool?) && (name == "string" <==> d.Text?)
    && (name == "number" <==> d.Number? || d.NotFinite?)
    && (name == "array" <==> d.List?) && (name == "object" <==> d.Object?)
  }

  /** `p` is one member under the placeholder key that says kind, digest, length and shape of `d` and
      nothing else. */
  predicate StandsFor(policy: Policy, kind: string, d: Json, p: Json) {
    && p.Object? && |p.members| == 1 && p.members[0].0 == policy.placeholderKey
    && var body := p.members[0].1;
       && body.Object? && |body.members| == 4
       && Holds(body, "kind", Text(kind)) && Holds(body, "sha256", Text(policy.sha256(d)))
       && Holds(body, "byte_length", Number(policy.byteLength(d)))
       && (exists i :: 0 <= i < 4 && body.members[i].0 == "value_shape"
             && body.members[i].1.Text? && HasShape(d, body.members[i].1.text))
  }

  lemma PlaceholderStandsFor(policy: Policy, kind: string, d: Json)
    ensures StandsFor(policy, kind, d, Placeholder(policy, kind, d))
  {
    var body := Placeholder(policy, kind, d).members[0].1;
    assert body.members[0] == ("kind", Text(kind)) && body.members[1] == ("sha256", Text(policy.sha256(d)));
    assert body.members[2] == ("byte_length", Number(policy.byteLength(d)));
    assert body.members[3] == ("value_shape", Text(Shape(d)));
    ShapeNames(d);
  }

  lemma ShapeNames(d: Json)
    ensures HasShape(d, Shape(d))
  {
    var n: nat := |Shape(d)|;
    assert |"null"| == 4 && |"boolean"| == 7 && |"string"| == 6 && |"number"| == 6 && |"array"| == 5 && |"object"| == 6;
    assert "string"[0] == 's' && "number"[0] == 'n' && "object"[0] == 'o';
  }

  function Keys(d: Json): set<string> {
    if d.Object? then set i | 0 <= i < |d.members| :: d.members[i].0 else {}
  }

  /** A placeholder is one member under the placeholder key, holding an object with the four fields. */
  lemma PlaceholderMeans(policy: Policy, d: Json)
    ensures IsPlaceholder(policy, d) <==>
            && d.Object? && |d.members| == 1 && Keys(d) == {policy.placeholderKey} && d.members[0].1.Object?
            && {"kind", "sha256", "byte_length", "value_shape"} <= Keys(d.members[0].1)
  {
    if d.Object? && |d.members| == 1 {
      assert d.members[0].0 in Keys(d);
      var body := d.members[0].1;
      if body.Object? {
        forall key ensures HasKey(body.members, key) <==> key in Keys(body) { }
      }
    }
  }

  /** What a secret rule leaves passes the validation, under any key. */
  lemma PlaceholderPasses(policy: Policy, kind: string, d: Json, p: Json, key: string)
    requires StandsFor(policy, kind, d, p)
    ensures IsPlaceholder(policy, p) && Harmless(policy, key, p) && NoUnmatchedSecrets(policy, p)
  {
  }

  predicate ScalarArray(d: Json) {
    d.List? && forall i | 0 <= i < |d.items| :: IsScalar(d.items[i])
  }

  /** What applying a rule to `d` may give: the replacement itself, a placeholder that stands for an
      encodable value, the items of an encodable array of scalars in order, or nothing. */
  ghost predicate Leaves(policy: Policy, operation: Operation, d: Json, r: Result<Option<Json>>) {
    match operation
    case Replace(replacement) => r == Ok(Some(replacement))
    case SecretPlaceholder(kind) =>
      && (r.Ok? <==> Encodes(d))
      && (r.Ok? ==> r.value.Some? && StandsFor(policy, kind, d, r.value.value))
    case SortScalarArray =>
      && (r.Ok? <==> ScalarArray(d) && Encodes(d))
      && (r.Ok? ==> r.value.Some? && r.value.value.List? && SortedFrom(policy.before, d.items, r.value.value.items))
    case Remove => r == Ok(None)
  }

  lemma AppliedLeaves(policy: Policy, rule: Rule, d: Json)
    ensures Leaves(policy, rule.operation, d, ApplyRule(policy, rule, d))
  {
    match rule.operation
    case Replace(_) =>
    case SecretPlaceholder(kind) => PlaceholderStandsFor(policy, kind, d);
    case SortScalarArray => if d.List? { SortIsSortedFrom(policy.before, d.items); }
    case Remove =>
  }

  // ----- the object that does it

  datatype Record = Record(location: string, operation: Operation, reason: string)

  function Records(changes: seq<Change>): (r: seq<Record>)
    ensures |r| == |changes|
  {
    seq(|changes|, i requires 0 <= i < |changes| =>
      Record(Pointer(changes[i].path), changes[i].rule.operation, changes[i].rule.reason))
  }

  lemma RecordsConcat(base: seq<Record>, a: seq<Change>, b: seq<Change>)
    ensures base + Records(a) + Records(b) == base + Records(a + b)
  {
    assert Records(a + b) == Records(a) + Records(b);
  }

  lemma {:induction false} ErrorSticks(policy: Policy, d: Json, path: Path, k: nat, n: nat)
    requires k <= n <= Kids(d) && NormalizeKids(policy, d, path, k).Error?
    ensures NormalizeKids(policy, d, path, n).Error?
    decreases n
  {
    if k < n { ErrorSticks(policy, d, path, k, n - 1); }
  }

  lemma KidAdded(policy: Policy, d: Json, path: Path, n: nat, kept: seq<(string, Json)>, made: seq<Change>, o: Outcome)
    requires n < Kids(d) && NormalizeKids(policy, d, path, n) == Ok(Kept(kept, made))
    requires NormalizeNode(policy, Kid(d, n), path + [Name(d, n)]) == Ok(o)
    ensures NormalizeKids(policy, d, path, n + 1) ==
              Ok(Kept(if o.value.Some? then kept + [(Name(d, n), o.value.value)] else kept, made + o.changes))
  {
    assert kept + [] == kept;
  }

  // ----- what can be encoded

  predicate ReplacementEncodes(change: Change) {
    change.rule.operation.Replace? ==> Encodes(change.rule.operation.replacement)
  }

  predicate ReplacementsEncode(changes: seq<Change>) {
    forall k | 0 <= k < |changes| :: ReplacementEncodes(changes[k])
  }

  predicate KeptEncode(kids: seq<(string, Json)>) {
    forall i | 0 <= i < |kids| :: Encodes(kids[i].1)
  }

  lemma AppliedEncodes(policy: Policy, rule: Rule, d: Json, path: Path)
    requires ApplyRule(policy, rule, d).Ok?
    ensures var result := ApplyRule(policy, rule, d).value;
            (result.Some? ==> Encodes(result.value)) <==> ReplacementEncodes(Change(path, rule, result))
  {
    match rule.operation
    case Replace(_) =>
    case SecretPlaceholder(kind) => PlaceholderEncodes(policy, kind, d);
    case SortScalarArray => SortedEncodes(policy.before, d.items);
    case Remove =>
  }

  lemma PlaceholderEncodes(policy: Policy, kind: string, d: Json)
    ensures Encodes(Placeholder(policy, kind, d))
  {
    var body := Placeholder(policy, kind, d).members[0].1;
    assert forall i | 0 <= i < Kids(body) :: Kid(body, i).Text? || Kid(body, i).Number?;
    assert Encodes(body);
  }

  lemma SortedEncodes(before: (Json, Json) -> bool, items: seq<Json>)
    requires Encodes(List(items))
    ensures Encodes(List(Sort(before, items)))
  {
    var d, sorted := List(items), Sort(before, items);
    SortPermutes(before, items);
    forall i | 0 <= i < |sorted| ensures Encodes(sorted[i]) {
      assert sorted[i] in multiset(sorted) && sorted[i] in items;
      var k :| 0 <= k < |items| && items[k] == sorted[i];
      assert Encodes(Kid(d, k));
    }
    assert forall i | 0 <= i < Kids(List(sorted)) :: Kid(List(sorted), i) == sorted[i];
  }

  /** The result can be encoded exactly when every replacement put into it can. */
  lemma {:induction false} OutcomeEncodes(policy: Policy, d: Json, path: Path)
    requires NormalizeNode(policy, d, path).Ok?
    ensures var o := NormalizeNode(policy, d, path).value;
            (o.value.Some? ==> Encodes(o.value.value)) <==> ReplacementsEncode(o.changes)
    decreases d, 1, 0
  {
    var selected := SelectRule(policy.rules, path).value;
    if selected.Some? {
      AppliedEncodes(policy, selected.value, d, path);
      var made := NormalizeNode(policy, d, path).value.changes;
      assert |made| == 1 && (ReplacementsEncode(made) <==> ReplacementEncodes(made[0]));
    } else if !IsScalar(d) {
      KidsEncode(policy, d, path, Kids(d));
      RebuiltEncodes(d, NormalizeKids(policy, d, path, Kids(d)).value.kids);
    }
  }

  lemma {:induction false} KidsEncode(policy: Policy, d: Json, path: Path, n: nat)
    requires n <= Kids(d) && NormalizeKids(policy, d, path, n).Ok?
    ensures var k := NormalizeKids(policy, d, path, n).value;
            KeptEncode(k.kids) <==> ReplacementsEncode(k.changes)
    decreases d, 0, n
  {
    if n > 0 {
      KidsEncode(policy, d, path, n - 1);
      OutcomeEncodes(policy, Kid(d, n - 1), path + [Name(d, n - 1)]);
      var earlier := NormalizeKids(policy, d, path, n - 1).value;
      var o := NormalizeNode(policy, Kid(d, n - 1), path + [Name(d, n - 1)]).value;
      var last := if o.value.Some? then [(Name(d, n - 1), o.value.value)] else [];
      assert o.value.Some? ==> (KeptEncode(last) <==> Encodes(last[0].1));
      KeptConcat(earlier.kids, last);
      ChangesConcat(earlier.changes, o.changes);
    }
  }

  lemma KeptConcat(a: seq<(string, Json)>, b: seq<(string, Json)>)
    ensures KeptEncode(a + b) <==> KeptEncode(a) && KeptEncode(b)
  {
    var all := a + b;
    assert forall i | 0 <= i < |a| :: all[i] == a[i];
    assert forall i | 0 <= i < |b| :: all[|a| + i] == b[i];
  }

  lemma ChangesConcat(a: seq<Change>, b: seq<Change>)
    ensures ReplacementsEncode(a + b) <==> ReplacementsEncode(a) && ReplacementsEncode(b)
  {
    var all := a + b;
    assert forall i | 0 <= i < |a| :: all[i] == a[i];
    assert forall i | 0 <= i < |b| :: all[|a| + i] == b[i];
  }

  lemma RebuiltEncodes(d: Json, kept: seq<(string, Json)>)
    ensures Encodes(Rebuild(d, kept)) <==> KeptEncode(kept)
  {
    var e := Rebuild(d, kept);
    assert Kids(e) == |kept| && forall i | 0 <= i < |kept| :: Kid(e, i) == kept[i].1;
  }

  /** Wherever a replacement rule is selected for a node that is reached, its replacement can be encoded. */
  ghost predicate PutsEncodable(policy: Policy, d: Json) {
    forall suffix, v, rule: Rule |
      && Reached(policy, d, [], suffix, v) && SelectRule(policy.rules, suffix) == Ok(Some(rule))
      && rule.operation.Replace? ::
      Encodes(rule.operation.replacement)
  }

  /** The result of a traversal can be encoded exactly under that condition on policy and document. */
  lemma EncodingIsExact(policy: Policy, d: Json)
    requires NormalizeNode(policy, d, []).Ok?
    ensures var o := NormalizeNode(policy, d, []).value;
            (o.value.Some? ==> Encodes(o.value.value)) <==> PutsEncodable(policy, d)
  {
    var changes := NormalizeNode(policy, d, []).value.changes;
    OutcomeEncodes(policy, d, []);
    if ReplacementsEncode(changes) {
      forall suffix, v, rule: Rule |
        && Reached(policy, d, [], suffix, v) && SelectRule(policy.rules, suffix) == Ok(Some(rule))
        && rule.operation.Replace?
        ensures Encodes(rule.operation.replacement)
      {
        assert [] + suffix == suffix;
        var change := Change(suffix, rule, ApplyRule(policy, rule, v).value);
        ReachedIsChanged(policy, d, [], suffix, v, change);
        var k :| 0 <= k < |changes| && changes[k] == change;
        assert ReplacementEncodes(changes[k]);
      }
    }
    if PutsEncodable(policy, d) {
      forall k | 0 <= k < |changes| ensures ReplacementEncodes(changes[k]) {
        ChangesAreMade(policy, d, []);
        assert changes[k] in changes;
        var suffix, v :| MadeAt(policy, d, [], suffix, v, changes[k]);
        assert [] + suffix == suffix;
      }
    }
  }

  /** A policy whose replacements can all be encoded never fails this way, on any document. */
  lemma PolicyEncodes(policy: Policy, d: Json)
    requires forall rule | rule in policy.rules && rule.operation.Replace? :: Encodes(rule.operation.replacement)
    ensures PutsEncodable(policy, d)
  {
    forall suffix, v, rule: Rule |
      && Reached(policy, d, [], suffix, v) && SelectRule(policy.rules, suffix) == Ok(Some(rule))
      && rule.operation.Replace?
      ensures Encodes(rule.operation.replacement)
    {
      SelectedIsMostSpecific(policy.rules, suffix);
    }
  }

  /** A failing input: one rule that replaces the root by a value without an encoding. Traversal and
      validation succeed, the encoding does not. */
  lemma UnencodableRoot(policy: Policy, d: Json, r: Json)
    requires r.NotFinite? || r.NotJson?
    requires |policy.rules| == 1 && policy.rules[0].segments == [] && policy.rules[0].operation == Replace(r)
    ensures var o := NormalizeNode(policy, d, []);
            && o.Ok? && o.value.value == Some(r) && NoUnmatchedSecrets(policy, r)
            && !Encodes(r) && !PutsEncodable(policy, d)
  {
    var rule := policy.rules[0];
    assert policy.rules[1..] == [] && Matching(policy.rules, []) == [rule];
    assert WithSpecificity([rule], Highest([rule])) == [rule];
    assert SelectRule(policy.rules, []) == Ok(Some(rule));
    EncodingIsExact(policy, d);
  }

  ghost predicate KidsDone(policy: Policy, d: Json, path: Path, n: nat, kept: seq<(string, Json)>, made: seq<Change>)
    requires n <= Kids(d)
  {
    NormalizeKids(policy, d, path, n) == Ok(Kept(kept, made))
  }

  class Normalizing {
    const policy: Policy
    var changes: seq<Record>

    constructor (policy: Policy)
      ensures this.policy == policy && changes == []
    {
      this.policy, changes := policy, [];
    }

    method Apply(rule: Rule, d: Json, path: Path) returns (r: Result<Option<Json>>)
      modifies this`changes
      ensures r == ApplyRule(policy, rule, d) && Leaves(policy, rule.operation, d, r)
      ensures r.Ok? ==> changes == old(changes) + Records([Change(path, rule, r.value)])
    {
      r := ApplyRule(policy, rule, d);
      AppliedLeaves(policy, rule, d);
      if r.Ok? {
        changes := changes + [Record(Pointer(path), rule.operation, rule.reason)];
      }
    }

    method Node(d: Json, path: Path) returns (r: Result<Option<Json>>)
      modifies this`changes
      ensures r.Ok? <==> NormalizeNode(policy, d, path).Ok?
      ensures r.Ok? ==>
                var o := NormalizeNode(policy, d, path).value;
                r.value == o.value && changes == old(changes) + Records(o.changes)
      decreases d, 2
    {
      var selected := SelectRule(policy.rules, path);
      if selected.Error? {
        return Error;
      }
      if selected.value.Some? {
        r := Apply(selected.value.value, d, path);
        return;
      }
      if d.NotFinite? || d.NotJson? {
        return Error;
      }
      if IsScalar(d) {
        return Ok(Some(d));
      }
      var kept := Children(d, path);
      if kept.Error? {
        return Error;
      }
      return Ok(Some(Rebuild(d, kept.value)));
    }

    /** The children of a list or an object, normalized in order, without the removed ones. */
    method Children(d: Json, path: Path) returns (r: Result<seq<(string, Json)>>)
      modifies this`changes
      ensures r.Ok? <==> NormalizeKids(policy, d, path, Kids(d)).Ok?
      ensures r.Ok? ==>
                var k := NormalizeKids(policy, d, path, Kids(d)).value;
                r.value == k.kids && changes == old(changes) + Records(k.changes)
      decreases d, 1
    {
      var kept: seq<(string, Json)> := [];
      var index := 0;
      ghost var made: seq<Change> := [];
      while index < Kids(d)
        invariant 0 <= index <= Kids(d)
        invariant KidsDone(policy, d, path, index, kept, made)
        invariant changes == old(changes) + Records(made)
      {
        var more, now := OneChild(d, path, index, kept, made, old(changes));
        if more.Error? {
          ErrorSticks(policy, d, path, index + 1, Kids(d));
          return Error;
        }
        kept, made := more.value, now;
        index := index + 1;
      }
      return Ok(kept);
    }

    method OneChild(d: Json, path: Path, index: nat, kept: seq<(string, Json)>, ghost made: seq<Change>,
        ghost base: seq<Record>)
      returns (r: Result<seq<(string, Json)>>, ghost now: seq<Change>)
      requires index < Kids(d) && KidsDone(policy, d, path, index, kept, made)
      requires changes == base + Records(made)
      modifies this`changes
      ensures r.Error? ==> NormalizeKids(policy, d, path, index + 1).Error?
      ensures r.Ok? ==> KidsDone(policy, d, path, index + 1, r.value, now) && changes == base + Records(now)
      decreases d, 0
    {
      var child := Node(Kid(d, index), path + [Name(d, index)]);
      now := made;
      if child.Error? {
        return Error, made;
      }
      ghost var o := NormalizeNode(policy, Kid(d, index), path + [Name(d, index)]).value;
      KidAdded(policy, d, path, index, kept, made, o);
      RecordsConcat(base, made, o.changes);
      now := made + o.changes;
      r := Ok(if child.value.Some? then kept + [(Name(d, index), child.value.value)] else kept);
    }

    /** A fresh normalizer returns the document rewritten exactly at its recorded changes, whose
        locations are distinct, and nothing it returns exposes a raw value under a suspicious key;
        a replacement that has no canonical encoding is refused. */
    method Normalize(d: Json) returns (r: Result<Json>)
      requires changes == [] && DistinctKeys(d)
      modifies this`changes
      ensures r.Ok? <==>
                var o := NormalizeNode(policy, d, []);
                && o.Ok? && o.value.value.Some? && NoUnmatchedSecrets(policy, o.value.value.value)
                && PutsEncodable(policy, d)
      ensures r.Ok? ==> Encodes(r.value)
      ensures r.Ok? ==>
                var made := NormalizeNode(policy, d, []).value.changes;
                changes == Records(made) && Scattered(made, []) && Some(r.value) == Rewrite(d, [], made)
      ensures r.Ok? ==> forall i, j | 0 <= i < j < |changes| :: changes[i].location != changes[j].location
      ensures r.Ok? ==>
                forall v, i | Exposed(policy, r.value, v) && v.Object? && !IsPlaceholder(policy, v)
                    && 0 <= i < |v.members| ::
                  Harmless(policy, v.members[i].0, v.members[i].1)
    {
      var node := Node(d, []);
      if node.Error? || node.value.None? {
        return Error;
      }
      if !NoUnmatchedSecrets(policy, node.value.value) {
        return Error;
      }
      EncodingIsExact(policy, d);
      if !Encodes(node.value.value) {
        return Error;
      }
      ghost var made := NormalizeNode(policy, d, []).value.changes;
      ChangesScattered(policy, d, []);
      NormalizeIsRewrite(policy, d, [], made);
      LocationsDistinct(made);
      ValidationIsExact(policy, node.value.value);
      assert changes == Records(made);
      return Ok(node.value.value);
    }
  }

  lemma LocationsDistinct(changes: seq<Change>)
    requires Scattered(changes, [])
    ensures forall i, j | 0 <= i < j < |changes| :: Records(changes)[i].location != Records(changes)[j].location
  {
    forall i, j | 0 <= i < j < |changes| ensures Records(changes)[i].location != Records(changes)[j].location {
      var p, q := changes[i].path, changes[j].path;
      assert q[..|q|] == q;
      if Pointer(p) == Pointer(q) { PointerInjective(p, q); }
    }
  }
}
