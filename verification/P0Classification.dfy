/** Classification of raw transport evidence. */
module P0Classification {
  import opened Sequences
  import opened P0Evidence

  const CLASSIFIED_SCHEMA := Str("heptabao.p0-transport-exact-result.v2")
  const PASS_EVIDENCE := Str("PASS_WITH_EXPLICIT_EVIDENCE_CLASSIFICATION")
  const FAIL_EVIDENCE := Str("FAIL_WITH_EXPLICIT_EVIDENCE_CLASSIFICATION")
  const DEFAULT_REASON := "P0 transport execution failed"

  function ClassName(c: Class): Value {
    match c
    case RuntimeObserved => Str("RUNTIME_SOCKET_OBSERVED")
    case CompiledSourceBound => Str("EXACT_HEAD_COMPILED_SOURCE_BOUND")
    case BestEffortSourceBound => Str("BEST_EFFORT_CONTROLLED_DROP_SOURCE_BOUND")
  }

  function PassStatus(c: Class): Value {
    match c
    case RuntimeObserved => Str("EXECUTED_PASS")
    case CompiledSourceBound => Str("SOURCE_BOUND_PASS")
    case BestEffortSourceBound => Str("SOURCE_BOUND_BEST_EFFORT_PASS")
  }

  function Execution(c: Class, status: Value): Value {
    if status == PASS then PassStatus(c) else status
  }

  /** A case with the two fields the classification adds. */
  datatype Evidence = Evidence(raw: Case, class_: Value, execution: Value)

  datatype Model = NoModel | Model(
    classification: Value, runtimeIds: Value, compiledIds: Value, bestEffortIds: Value,
    runtimeCount: Value, sourceCount: Value, sourceIsRuntime: Value)

  datatype Classified = Classified(
    schema: Value, result: Value, evidenceResult: Value, reason: Value, source: Source,
    rawCounts: Option<Counts>, counts: Option<Counts>, cases: Option<seq<Item<Evidence>>>, model: Model,
    qualification: Value, compatibilityClaim: Value, authorityEffect: Value)

  /** What Python contributes: which characters are white space, and str() of a value that is not a string. */
  datatype Text = Text(space: char -> bool, show: Value -> string)

  // ----- what the classifier accepts

  predicate AllDicts<T>(items: seq<Item<T>>) {
    forall i | 0 <= i < |items| :: items[i].Dict?
  }

  function Entries<T>(items: seq<Item<T>>): (r: seq<T>)
    requires AllDicts(items)
    ensures |r| == |items| && forall i | 0 <= i < |items| :: items[i] == Dict(r[i])
  {
    seq(|items|, i requires 0 <= i < |items| => items[i].entry)
  }

  predicate Named(cases: seq<Case>) {
    forall i | 0 <= i < |cases| :: cases[i].id.Str?
  }

  function Ids(cases: seq<Case>): (r: seq<string>)
    requires Named(cases)
    ensures |r| == |cases| && forall i | 0 <= i < |cases| :: cases[i].id == Str(r[i])
  {
    seq(|cases|, i requires 0 <= i < |cases| => cases[i].id.s)
  }

  /** Each canonical case exactly once, in any order. */
  ghost predicate Covers(cat: Catalog, cases: seq<Case>) {
    Named(cases) && Distinct(Ids(cases)) && Elements(Ids(cases)) == Elements(cat.order)
  }

  /** The case of the list with this identifier. */
  function Lookup(cases: seq<Case>, id: string): Option<Case> {
    if cases == [] then None
    else if cases[0].id == Str(id) then Some(cases[0])
    else Lookup(cases[1..], id)
  }

  predicate PassedCase(cases: seq<Case>, id: string) {
    Lookup(cases, id).Some? && Lookup(cases, id).value.status == PASS
  }

  /** In canonical order no case passes after one that did not. */
  predicate PassesFirst(order: seq<string>, cases: seq<Case>) {
    forall i, j | 0 <= i < j < |order| && PassedCase(cases, order[j]) :: PassedCase(cases, order[i])
  }

  predicate SomeFailure(cases: seq<Case>) {
    exists i :: 0 <= i < |cases| && IsFailure(cases[i].status)
  }

  predicate Disposed(cases: seq<Case>) {
    forall i | 0 <= i < |cases| :: cases[i].status == PASS || IsFailure(cases[i].status)
  }

  predicate AllPass(cases: seq<Case>) {
    forall i | 0 <= i < |cases| :: cases[i].status == PASS
  }

  predicate HeaderAccepted(raw: Report) {
    && raw.schema == RAW_SCHEMA && (raw.result == PASS || raw.result == FAIL)
    && Modest(raw.qualification, raw.compatibilityClaim, raw.authorityEffect)
    && SourceBound(raw.source) && (raw.result == PASS ==> raw.source.cleanTree == Bool(true))
  }

  ghost predicate CasesAccepted(cat: Catalog, passing: bool, cases: seq<Case>) {
    && Covers(cat, cases)
    && if passing then AllPass(cases) else Disposed(cases) && PassesFirst(cat.order, cases) && SomeFailure(cases)
  }

  /** What the classifier demands of a raw report. */
  ghost predicate Acceptable(cat: Catalog, raw: Report) {
    && HeaderAccepted(raw) && raw.cases.Some? && AllDicts(raw.cases.value)
    && CasesAccepted(cat, raw.result == PASS, Entries(raw.cases.value))
    && raw.counts == Some(RawCounts(Statuses(Entries(raw.cases.value))))
  }

  // ----- what it makes of an acceptable report

  predicate OfClass(cat: Catalog, id: Value, c: Class) {
    id.Str? && id.s in cat.classes && cat.classes[id.s] == c
  }

  /** How many of the cases passed and have this class. */
  function PassCount(cat: Catalog, cases: seq<Case>, c: Class): nat {
    if cases == [] then 0
    else (if cases[0].status == PASS && OfClass(cat, cases[0].id, c) then 1 else 0) + PassCount(cat, cases[1..], c)
  }

  function Members(cat: Catalog, c: Class): set<string> {
    set id | id in cat.classes && cat.classes[id] == c
  }

  /** The passed cases of a class, in canonical order, which is also their sorted order. */
  function PassedIds(cat: Catalog, order: seq<string>, cases: seq<Case>, c: Class): (r: seq<string>)
    ensures forall id :: id in r <==> id in order && PassedCase(cases, id) && OfClass(cat, Str(id), c)
  {
    if order == [] then []
    else (if PassedCase(cases, order[0]) && OfClass(cat, Str(order[0]), c) then [order[0]] else [])
         + PassedIds(cat, order[1..], cases, c)
  }

  /** The identifiers of a class, sorted. */
  function ClassIds(cat: Catalog, order: seq<string>, c: Class): (r: seq<string>)
    ensures forall id :: id in r <==> id in order && OfClass(cat, Str(id), c)
  {
    if order == [] then []
    else (if OfClass(cat, Str(order[0]), c) then [order[0]] else []) + ClassIds(cat, order[1..], c)
  }

  function CountsOf(runtime: nat, compiled: nat, bestEffort: nat, fail: nat, blocked: nat, unexecuted: nat,
      total: nat): Counts {
    map[ExecutedPass := Int(runtime), SourceBoundPass := Int(compiled),
        BestEffortPass := Int(bestEffort),
        Fail := Int(fail), Blocked := Int(blocked), Unexecuted := Int(unexecuted), Key.Total := Int(total)]
  }

  function CompleteCounts(cat: Catalog): Counts {
    CountsOf(|Members(cat, RuntimeObserved)|, |Members(cat, CompiledSourceBound)|,
      |Members(cat, BestEffortSourceBound)|, 0, 0, 0, |cat.classes|)
  }

  function PartialCounts(cat: Catalog, cases: seq<Case>): Counts {
    var s := Statuses(cases);
    CountsOf(PassCount(cat, cases, RuntimeObserved), PassCount(cat, cases, CompiledSourceBound),
      PassCount(cat, cases, BestEffortSourceBound),
      Count(s, FAIL), Count(s, BLOCKED), Count(s, UNEXECUTED) + Count(s, UNKNOWN), |cat.classes|)
  }

  predicate SomePass(cases: seq<Case>) {
    exists i :: 0 <= i < |cases| && cases[i].status == PASS
  }

  function ModelName(passing: bool, cases: seq<Case>): Value {
    if passing then Str("MIXED_RUNTIME_AND_EXACT_HEAD_SOURCE_BOUND")
    else if SomePass(cases) then Str("PARTIAL_EXECUTION_FAILURE")
    else Str("EXECUTION_FAILED_BEFORE_COMPLETE_MATRIX")
  }

  function ModelOf(cat: Catalog, passing: bool, cases: seq<Case>): Model {
    var (runtime, compiled, bestEffort) :=
      if passing then (|Members(cat, RuntimeObserved)|, |Members(cat, CompiledSourceBound)|,
          |Members(cat, BestEffortSourceBound)|)
      else (PassCount(cat, cases, RuntimeObserved), PassCount(cat, cases, CompiledSourceBound),
          PassCount(cat, cases, BestEffortSourceBound));
    Model(ModelName(passing, cases),
      List(PassedIds(cat, cat.order, cases, RuntimeObserved)),
      List(PassedIds(cat, cat.order, cases, CompiledSourceBound)),
      List(PassedIds(cat, cat.order, cases, BestEffortSourceBound)),
      Int(runtime), Int(compiled + bestEffort), Bool(false))
  }

  predicate Truthy(v: Value) {
    match v
    case Missing => false
    case Str(s) => s != ""
    case Int(i) => i != 0
    case Bool(b) => b
    case Float(x) => x != 0.0
    case List(items) => items != []
    case Other(empty, _) => !empty
  }

  function ReasonText(text: Text, reason: Value): string {
    if !Truthy(reason) then DEFAULT_REASON else if reason.Str? then reason.s else text.show(reason)
  }

  function Label(cat: Catalog, raw: Case): Evidence
    requires raw.id.Str? && raw.id.s in cat.classes
  {
    var c := cat.classes[raw.id.s];
    Evidence(raw, ClassName(c), Execution(c, raw.status))
  }

  function Labels(cat: Catalog, cases: seq<Case>): (r: seq<Evidence>)
    requires forall i | 0 <= i < |cases| :: cases[i].id.Str? && cases[i].id.s in cat.classes
    ensures |r| == |cases| && forall i | 0 <= i < |cases| :: r[i] == Label(cat, cases[i])
  {
    seq(|cases|, i requires 0 <= i < |cases| => Label(cat, cases[i]))
  }

  lemma CoversClasses(cat: Catalog, cases: seq<Case>)
    requires ValidCatalog(cat) && Covers(cat, cases)
    ensures forall i | 0 <= i < |cases| :: cases[i].id.Str? && cases[i].id.s in cat.classes
  {
    forall i | 0 <= i < |cases| ensures cases[i].id.s in cat.classes {
      assert Ids(cases)[i] in Elements(Ids(cases));
    }
  }

  function Assemble(cat: Catalog, text: Text, raw: Report, cases: seq<Case>, labels: seq<Evidence>): Classified {
    if raw.result == PASS then
      Classified(CLASSIFIED_SCHEMA, PASS, PASS_EVIDENCE, raw.reason, raw.source, raw.counts,
        Some(CompleteCounts(cat)), Some(Dicts(labels)), ModelOf(cat, true, cases),
        raw.qualification, raw.compatibilityClaim, raw.authorityEffect)
    else
      Classified(CLASSIFIED_SCHEMA, FAIL, FAIL_EVIDENCE, Str(ReasonText(text, raw.reason)), raw.source, raw.counts,
        Some(PartialCounts(cat, cases)), Some(Dicts(labels)), ModelOf(cat, false, cases),
        raw.qualification, raw.compatibilityClaim, raw.authorityEffect)
  }

  ghost function Classify(cat: Catalog, text: Text, raw: Report): Classified
    requires ValidCatalog(cat) && Acceptable(cat, raw)
  {
    var cases := Entries(raw.cases.value);
    CoversClasses(cat, cases);
    Assemble(cat, text, raw, cases, Labels(cat, cases))
  }

  // ----- the classifier itself

  /** The identifiers are strings, not repeated, and exactly the expected ones. */
  method CheckCoverage(cat: Catalog, cases: seq<Case>) returns (ok: bool)
    requires ValidCatalog(cat)
    ensures ok == Covers(cat, cases)
  {
    if !Named(cases) {
      return false;
    }
    var ids := Ids(cases);
    var unique := set id | id in ids;
    assert unique == Elements(ids);
    ok := |ids| == |unique| && unique == cat.classes.Keys;
    if |ids| == |unique| {
      CardDistinct(ids);
    } else if Distinct(ids) {
      DistinctCard(ids);
      assert false;
    }
  }

  predicate StatusAllowed(passing: bool, status: Value) {
    status == PASS || (!passing && IsFailure(status))
  }

  /** The loop that labels each case, stopping at one whose status its report does not allow. */
  method LabelCases(cat: Catalog, passing: bool, cases: seq<Case>) returns (labels: Option<seq<Evidence>>)
    requires forall i | 0 <= i < |cases| :: cases[i].id.Str? && cases[i].id.s in cat.classes
    ensures labels == if forall i | 0 <= i < |cases| :: StatusAllowed(passing, cases[i].status)
                      then Some(Labels(cat, cases)) else None
  {
    var done: seq<Evidence> := [];
    for i := 0 to |cases|
      invariant |done| == i
      invariant forall j | 0 <= j < i :: StatusAllowed(passing, cases[j].status) && done[j] == Label(cat, cases[j])
    {
      if !StatusAllowed(passing, cases[i].status) {
        return None;
      }
      done := done + [Label(cat, cases[i])];
    }
    assert done == Labels(cat, cases);
    labels := Some(done);
  }

  /** The pass over the canonical order that looks for a PASS behind the failure boundary. */
  method CheckBoundary(order: seq<string>, cases: seq<Case>) returns (ok: bool)
    ensures ok == PassesFirst(order, cases)
  {
    ghost var first := |order|;
    var seen := false;
    for i := 0 to |order|
      invariant seen ==> 0 <= first < i && !PassedCase(cases, order[first])
      invariant forall j | 0 <= j < i :: PassedCase(cases, order[j]) <==> (!seen || j < first)
    {
      if PassedCase(cases, order[i]) {
        if seen {
          return false;
        }
      } else if !seen {
        seen, first := true, i;
      }
    }
    ok := true;
  }

  /** Every case of an acceptable report falls into exactly one of the counted dispositions. */
  lemma {:induction false} DispositionsSum(cat: Catalog, cases: seq<Case>)
    requires Disposed(cases)
    requires forall i | 0 <= i < |cases| :: cases[i].id.Str? && cases[i].id.s in cat.classes
    ensures PassCount(cat, cases, RuntimeObserved) + PassCount(cat, cases, CompiledSourceBound)
            + PassCount(cat, cases, BestEffortSourceBound) + Count(Statuses(cases), FAIL)
            + Count(Statuses(cases), BLOCKED)
            + Count(Statuses(cases), UNEXECUTED) + Count(Statuses(cases), UNKNOWN) == |cases|
  {
    if cases != [] {
      var rest := cases[1..];
      DispositionsSum(cat, rest);
      assert Statuses(cases)[1..] == Statuses(rest);
      var status := cases[0].status;
      OneStatus();
      CountCons(status, Statuses(rest), FAIL);
      CountCons(status, Statuses(rest), BLOCKED);
      CountCons(status, Statuses(rest), UNEXECUTED);
      CountCons(status, Statuses(rest), UNKNOWN);
      assert Statuses(cases) == [status] + Statuses(rest);
    }
  }

  lemma CountCons(v: Value, s: seq<Value>, w: Value)
    ensures Count([v] + s, w) == (if v == w then 1 else 0) + Count(s, w)
  {
    assert ([v] + s)[1..] == s;
  }

  lemma OneStatus()
    ensures PASS.s[0] == 'P' && FAIL.s[0] == 'F' && BLOCKED.s[0] == 'B'
    ensures |UNKNOWN.s| == 7 && |UNEXECUTED.s| == 10 && UNKNOWN.s[0] == 'U' && UNEXECUTED.s[0] == 'U'
  {
  }

  lemma CoversCount(cat: Catalog, cases: seq<Case>)
    requires ValidCatalog(cat) && Covers(cat, cases)
    ensures |cases| == |cat.classes|
  {
    DistinctCard(Ids(cases));
    assert |cat.classes| == |cat.classes.Keys|;
  }

  /** The sum of the counts of a failed report. */
  function DispositionTotal(cat: Catalog, cases: seq<Case>): nat {
    var s := Statuses(cases);
    PassCount(cat, cases, RuntimeObserved) + PassCount(cat, cases, CompiledSourceBound)
    + PassCount(cat, cases, BestEffortSourceBound) + Count(s, FAIL) + Count(s, BLOCKED)
    + (Count(s, UNEXECUTED) + Count(s, UNKNOWN))
  }

  /** The script's last guard, that the counts of a failed report add up, always holds. */
  lemma GuardHolds(cat: Catalog, cases: seq<Case>)
    requires ValidCatalog(cat) && Covers(cat, cases) && Disposed(cases)
    ensures DispositionTotal(cat, cases) == |cat.classes|
  {
    CoversClasses(cat, cases);
    CoversCount(cat, cases);
    DispositionsSum(cat, cases);
  }

  ghost predicate Classifiable(cat: Catalog, cases: seq<Case>) {
    forall i | 0 <= i < |cases| :: cases[i].id.Str? && cases[i].id.s in cat.classes
  }

  /** The cases as classified, when they are acceptable. */
  method ClassifyCases(cat: Catalog, passing: bool, cases: seq<Case>) returns (labels: Option<seq<Evidence>>)
    requires ValidCatalog(cat)
    ensures labels.Some? <==> CasesAccepted(cat, passing, cases)
    ensures labels.Some? ==> Classifiable(cat, cases) && labels.value == Labels(cat, cases)
  {
    var covered := CheckCoverage(cat, cases);
    if !covered {
      return None;
    }
    CoversClasses(cat, cases);
    labels := LabelCases(cat, passing, cases);
    if labels.Some? && !passing {
      var bounded := CheckBoundary(cat.order, cases);
      if !bounded || !SomeFailure(cases) {
        return None;
      }
      GuardHolds(cat, cases);
      labels := if DispositionTotal(cat, cases) == |cat.classes| then labels else None;
    }
  }

  predicate NonNegative(counts: Counts) {
    forall k | k in counts :: counts[k].Int? && counts[k].i >= 0
  }

  method CheckRawCounts(counts: Option<Counts>, statuses: seq<Value>) returns (ok: bool)
    ensures ok == (counts == Some(RawCounts(statuses)))
  {
    ok := counts.Some? && NonNegative(counts.value) && counts.value == RawCounts(statuses);
  }

  /** The script as a whole: it accepts exactly the acceptable reports. */
  method ClassifyReport(cat: Catalog, text: Text, raw: Report) returns (r: Option<Classified>)
    requires ValidCatalog(cat)
    ensures r.Some? <==> Acceptable(cat, raw)
    ensures r.Some? ==> r.value == Classify(cat, text, raw)
  {
    if !HeaderAccepted(raw) || raw.cases.None? || !AllDicts(raw.cases.value) {
      return None;
    }
    var cases := Entries(raw.cases.value);
    var labels := ClassifyCases(cat, raw.result == PASS, cases);
    if labels.None? {
      return None;
    }
    var counted := CheckRawCounts(raw.counts, Statuses(cases));
    if !counted {
      return None;
    }
    r := Some(Assemble(cat, text, raw, cases, labels.value));
  }
}
