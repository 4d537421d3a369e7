/** The transport evidence records, and the failure matrix made out of a run that broke off. */
module P0Evidence {
  import opened Sequences

  /** A JSON value as far as the scripts look at it. Missing stands for an absent key and for null,
      List for an array of strings, Other for any other array or object. */
  datatype Value =
    | Missing
    | Str(s: string)
    | Int(i: int)
    | Bool(b: bool)
    | Float(x: real)
    | List(items: seq<string>)
    | Other(empty: bool, tag: nat)

  const PASS := Str("PASS")
  const FAIL := Str("FAIL")
  const BLOCKED := Str("BLOCKED")
  const UNKNOWN := Str("UNKNOWN")
  const UNEXECUTED := Str("UNEXECUTED")

  /** FAILURE_STATUSES. */
  predicate IsFailure(status: Value) {
    status == FAIL || status == BLOCKED || status == UNKNOWN || status == UNEXECUTED
  }

  datatype Class = RuntimeObserved | CompiledSourceBound | BestEffortSourceBound

  /** The case identifiers in their canonical order, and the evidence class of each. */
  datatype Catalog = Catalog(order: seq<string>, classes: map<string, Class>)

  ghost predicate ValidCatalog(cat: Catalog) {
    cat.order != [] && Distinct(cat.order) && cat.classes.Keys == Elements(cat.order)
  }

  /** A raw case: the two fields the scripts read, and whatever else the dictionary holds. */
  datatype Case = Case(id: Value, status: Value, rest: Value)

  /** An entry of a JSON list that should hold dictionaries. */
  datatype Item<+T> = NotADict | Dict(entry: T)

  datatype Source = NoSource | Source(repository: Value, commit: Value, tree: Value, cleanTree: Value)

  /** A key of a counts object; Unlisted stands for any name not used by the scripts. */
  datatype Key =
    | Pass | Fail | Blocked | Unexecuted
    | ExecutedPass | SourceBoundPass | BestEffortPass | Total
    | Unlisted(name: string)

  type Counts = map<Key, Value>

  datatype Report = Report(
    schema: Value, result: Value, reason: Value, source: Source,
    counts: Option<Counts>, cases: Option<seq<Item<Case>>>,
    qualification: Value, compatibilityClaim: Value, authorityEffect: Value)

  const RAW_SCHEMA := Str("heptabao.p0-transport-exact-result.v1")
  const REPOSITORY := Str("TrillionniumFoundation/HeptaBao")
  const NO_AUTHORITY := Str("NONE")

  predicate HexDigit(c: char) {
    '0' <= c <= '9' || 'a' <= c <= 'f'
  }

  predicate Sha40(v: Value) {
    v.Str? && |v.s| == 40 && forall i | 0 <= i < |v.s| :: HexDigit(v.s[i])
  }

  predicate SourceBound(s: Source) {
    s.Source? && s.repository == REPOSITORY && Sha40(s.commit) && Sha40(s.tree) && s.cleanTree.Bool?
  }

  /** No record may qualify itself, claim compatibility or carry authority. */
  predicate Modest(qualification: Value, compatibilityClaim: Value, authorityEffect: Value) {
    qualification == Bool(false) && compatibilityClaim == Bool(false) && authorityEffect == NO_AUTHORITY
  }

  // ----- counting statuses

  function Count(statuses: seq<Value>, v: Value): nat {
    if statuses == [] then 0 else (if statuses[0] == v then 1 else 0) + Count(statuses[1..], v)
  }

  function Statuses(cases: seq<Case>): (r: seq<Value>)
    ensures |r| == |cases| && forall i | 0 <= i < |cases| :: r[i] == cases[i].status
  {
    seq(|cases|, i requires 0 <= i < |cases| => cases[i].status)
  }

  function RawCounts(statuses: seq<Value>): Counts {
    map[Pass := Int(Count(statuses, PASS)), Fail := Int(Count(statuses, FAIL)),
        Blocked := Int(Count(statuses, BLOCKED)),
        Unexecuted := Int(Count(statuses, UNEXECUTED) + Count(statuses, UNKNOWN))]
  }

  lemma {:induction false} CountIsMultiplicity(statuses: seq<Value>, v: Value)
    ensures Count(statuses, v) == multiset(statuses)[v]
  {
    if statuses != [] {
      assert statuses == [statuses[0]] + statuses[1..];
      CountIsMultiplicity(statuses[1..], v);
    }
  }

  /** Each key counts its own status; an unknown one counts as unexecuted. */
  lemma RawCountsAre(statuses: seq<Value>)
    ensures var counts, all := RawCounts(statuses), multiset(statuses);
            && counts.Keys == {Pass, Fail, Blocked, Unexecuted}
            && counts[Pass] == Int(all[Str("PASS")]) && counts[Fail] == Int(all[Str("FAIL")])
            && counts[Blocked] == Int(all[Str("BLOCKED")])
            && counts[Unexecuted] == Int(all[Str("UNEXECUTED")] + all[Str("UNKNOWN")])
  {
    CountIsMultiplicity(statuses, PASS);
    CountIsMultiplicity(statuses, FAIL);
    CountIsMultiplicity(statuses, BLOCKED);
    CountIsMultiplicity(statuses, UNKNOWN);
    CountIsMultiplicity(statuses, UNEXECUTED);
  }

  function Dicts<T>(entries: seq<T>): (r: seq<Item<T>>)
    ensures |r| == |entries| && forall i | 0 <= i < |entries| :: r[i] == Dict(entries[i])
  {
    seq(|entries|, i requires 0 <= i < |entries| => Dict(entries[i]))
  }

  // ----- the failure matrix

  /** The first entry of the run that has this identifier. */
  function First(items: seq<Item<Case>>, id: string): Option<Case> {
    if items == [] then None
    else if items[0].Dict? && items[0].entry.id == Str(id) then Some(items[0].entry)
    else First(items[1..], id)
  }

  predicate Passed(items: seq<Item<Case>>, id: string) {
    First(items, id).Some? && First(items, id).value.status == PASS
  }

  /** How many cases, in canonical order, passed before the first that did not. */
  function PassedPrefix(items: seq<Item<Case>>, order: seq<string>): (n: nat)
    ensures n <= |order|
    ensures forall i | 0 <= i < n :: Passed(items, order[i])
    ensures n < |order| ==> !Passed(items, order[n])
  {
    if order == [] || !Passed(items, order[0]) then 0 else 1 + PassedPrefix(items, order[1..])
  }

  /** The boundary case: the first that did not pass, the last one when all did. */
  function Boundary(order: seq<string>, items: seq<Item<Case>>): (n: nat)
    requires order != []
    ensures n < |order| && forall i | 0 <= i < n :: Passed(items, order[i])
  {
    var n := PassedPrefix(items, order);
    if n == |order| then n - 1 else n
  }

  function MatrixCase(order: seq<string>, items: seq<Item<Case>>, i: nat): Case
    requires order != [] && i < |order|
  {
    var n := Boundary(order, items);
    if i < n then First(items, order[i]).value
    else Case(Str(order[i]), if i == n then FAIL else UNEXECUTED, Other(false, 0))
  }

  /** What the matrix should be; `partial` is None when no matrix had been started. */
  function FailureCases(order: seq<string>, partial: Option<seq<Item<Case>>>): (r: seq<Case>)
    requires order != []
    ensures |r| == |order|
  {
    seq(|order|, i requires 0 <= i < |order| =>
      if partial.Some? then MatrixCase(order, partial.value, i)
      else Case(Str(order[i]), UNEXECUTED, Other(false, 0)))
  }

  ghost predicate Indexed(order: seq<string>, items: seq<Item<Case>>, byId: map<string, Case>) {
    forall id :: (id in byId <==> id in order && First(items, id).Some?)
                 && (id in byId ==> First(items, id) == Some(byId[id]))
  }

  lemma {:induction false} FirstSnoc(items: seq<Item<Case>>, item: Item<Case>, id: string)
    ensures First(items + [item], id) ==
            if First(items, id).Some? then First(items, id)
            else if item.Dict? && item.entry.id == Str(id) then Some(item.entry) else None
  {
    if items == [] {
      assert items + [item] == [item];
    } else {
      FirstSnoc(items[1..], item, id);
      assert (items + [item])[1..] == items[1..] + [item];
    }
  }

  /** The dictionary of the run's cases; the first of a repeated identifier is kept. */
  method IndexCases(order: seq<string>, items: seq<Item<Case>>) returns (byId: map<string, Case>)
    ensures Indexed(order, items, byId)
  {
    byId := map[];
    for k := 0 to |items|
      invariant Indexed(order, items[..k], byId)
    {
      var item := items[k];
      forall id ensures First(items[..k + 1], id) ==
          if First(items[..k], id).Some? then First(items[..k], id)
          else if item.Dict? && item.entry.id == Str(id) then Some(item.entry) else None
      {
        FirstSnoc(items[..k], item, id);
        assert items[..k + 1] == items[..k] + [item];
      }
      if item.Dict? && item.entry.id.Str? && item.entry.id.s in order && item.entry.id.s !in byId {
        byId := byId[item.entry.id.s := item.entry];
      }
    }
    assert items[..|items|] == items;
  }

  lemma {:induction false} PrefixUnique(items: seq<Item<Case>>, order: seq<string>, n: nat)
    requires n <= |order| && (forall i | 0 <= i < n :: Passed(items, order[i]))
    requires n < |order| ==> !Passed(items, order[n])
    ensures PassedPrefix(items, order) == n
  {
    if n > 0 {
      assert Passed(items, order[0]);
      PrefixUnique(items, order[1..], n - 1);
    }
  }

  /** The cases kept from the run. */
  method Preserve(order: seq<string>, ghost items: seq<Item<Case>>, byId: map<string, Case>)
      returns (preserved: seq<Case>)
    requires Indexed(order, items, byId)
    ensures |preserved| == PassedPrefix(items, order)
    ensures forall i | 0 <= i < |preserved| :: First(items, order[i]) == Some(preserved[i])
  {
    preserved := [];
    while |preserved| < |order|
      invariant |preserved| <= |order|
      invariant forall i | 0 <= i < |preserved| ::
          Passed(items, order[i]) && First(items, order[i]) == Some(preserved[i])
      decreases |order| - |preserved|
    {
      var id := order[|preserved|];
      if id !in byId || byId[id].status != PASS {
        break;
      }
      preserved := preserved + [byId[id]];
    }
    PrefixUnique(items, order, |preserved|);
  }

  method MakeFailureCases(order: seq<string>, partial: Option<seq<Item<Case>>>) returns (cases: seq<Case>)
    requires order != []
    ensures cases == FailureCases(order, partial)
  {
    if partial.None? {
      cases := seq(|order|, i requires 0 <= i < |order| => Case(Str(order[i]), UNEXECUTED, Other(false, 0)));
      return;
    }
    var byId := IndexCases(order, partial.value);
    cases := Preserve(order, partial.value, byId);
    var failed := |cases|;
    if failed >= |order| {
      failed := |order| - 1;
      cases := cases[..failed];
    }
    assert failed == Boundary(order, partial.value);
    cases := cases + [Case(Str(order[failed]), FAIL, Other(false, 0))];
    for i := failed + 1 to |order|
      invariant |cases| == i
      invariant forall j | 0 <= j < i :: cases[j] == MatrixCase(order, partial.value, j)
    {
      cases := cases + [Case(Str(order[i]), UNEXECUTED, Other(false, 0))];
    }
  }

  // ----- what the matrix says

  lemma {:induction false} FirstHasId(items: seq<Item<Case>>, id: string)
    requires First(items, id).Some?
    ensures First(items, id).value.id == Str(id)
  {
    if !(items[0].Dict? && items[0].entry.id == Str(id)) {
      FirstHasId(items[1..], id);
    }
  }

  /** One line per case, in canonical order. */
  lemma MatrixNames(order: seq<string>, partial: Option<seq<Item<Case>>>, i: nat)
    requires i < |order|
    ensures FailureCases(order, partial)[i].id == Str(order[i])
  {
    if partial.Some? && i < Boundary(order, partial.value) {
      FirstHasId(partial.value, order[i]);
    }
  }

  /** What passed is a proper prefix of the matrix and is kept as the run recorded it; the boundary
      case fails, everything after it is unexecuted; a full PASS run still yields a failure. */
  lemma MatrixShape(order: seq<string>, items: seq<Item<Case>>) returns (n: nat)
    requires order != []
    ensures n < |order| && (n + 1 < |order| ==> !Passed(items, order[n]))
    ensures forall i | 0 <= i < n ::
        First(items, order[i]) == Some(FailureCases(order, Some(items))[i]) && Passed(items, order[i])
    ensures FailureCases(order, Some(items))[n].status == FAIL
    ensures forall i | n < i < |order| :: FailureCases(order, Some(items))[i].status == UNEXECUTED
  {
    n := Boundary(order, items);
  }

  /** The FAIL report of a run stopped by an error with this message. */
  function FailReport(order: seq<string>, partial: Option<seq<Item<Case>>>, message: string, source: Source): Report
    requires order != []
  {
    var cases := FailureCases(order, partial);
    Report(RAW_SCHEMA, FAIL, Str(message), source, Some(RawCounts(Statuses(cases))), Some(Dicts(cases)),
      Bool(false), Bool(false), NO_AUTHORITY)
  }
}
