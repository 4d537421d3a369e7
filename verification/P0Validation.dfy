/** Python's equality of numbers, the raw report behind a classified record, and the validator of
    failed records. */
module P0Validation {
  import opened Sequences
  import opened P0Evidence
  import opened P0Classification

  /** The source identity a caller may insist on. */
  datatype Binding = Binding(repository: Option<string>, commit: Option<string>, tree: Option<string>)

  predicate Bound(binding: Binding, source: Source) {
    && source.Source?
    && (binding.commit.Some? ==> source.commit == Str(binding.commit.value))
    && (binding.tree.Some? ==> source.tree == Str(binding.tree.value))
    && (binding.repository.Some? ==> source.repository == Str(binding.repository.value))
  }

  predicate Blank(text: Text, s: string) {
    forall i | 0 <= i < |s| :: text.space(s[i])
  }

  // ----- Python's equality, under which 1, 1.0 and true are the same

  predicate Numeric(v: Value) {
    v.Int? || v.Bool? || v.Float?
  }

  function Number(v: Value): real
    requires Numeric(v)
  {
    match v
    case Int(i) => i as real
    case Bool(b) => if b then 1.0 else 0.0
    case Float(x) => x
  }

  predicate Equal(a: Value, b: Value) {
    if Numeric(a) && Numeric(b) then Number(a) == Number(b) else a == b
  }

  /** A boolean equals the number 1 or 0, whether that is an integer or a float. */
  lemma BooleanIsNumber(b: bool, i: int, x: real)
    ensures Equal(Bool(b), Int(i)) <==> i == if b then 1 else 0
    ensures Equal(Bool(b), Float(x)) <==> x == if b then 1.0 else 0.0
    ensures Equal(Int(i), Float(x)) <==> x == i as real
  {
  }

  predicate EqualCounts(a: Counts, b: Counts) {
    a.Keys == b.Keys && forall k | k in a :: Equal(a[k], b[k])
  }

  // ----- reading a classified record back

  function Strip(items: seq<Item<Evidence>>): (r: seq<Item<Case>>)
    ensures |r| == |items|
    ensures forall i | 0 <= i < |items| :: r[i] == if items[i].Dict? then Dict(items[i].entry.raw) else NotADict
  {
    seq(|items|, i requires 0 <= i < |items| => if items[i].Dict? then Dict(items[i].entry.raw) else NotADict)
  }

  /** The raw report a classified record says it was made from. */
  function RawOf(c: Classified): Report {
    Report(RAW_SCHEMA, c.result, c.reason, c.source, c.rawCounts,
      if c.cases.Some? then Some(Strip(c.cases.value)) else None,
      c.qualification, c.compatibilityClaim, c.authorityEffect)
  }

  predicate ModelMatches(m: Model, expected: Model) {
    && m.Model? && expected.Model?
    && m.(runtimeCount := expected.runtimeCount, sourceCount := expected.sourceCount) == expected
    && Equal(m.runtimeCount, expected.runtimeCount) && Equal(m.sourceCount, expected.sourceCount)
  }

  /** The same record, up to Python's equality of numbers. */
  predicate SameRecord(c: Classified, d: Classified) {
    && c.(counts := d.counts, model := d.model) == d
    && c.counts.Some? && d.counts.Some? && EqualCounts(c.counts.value, d.counts.value)
    && ModelMatches(c.model, d.model)
  }

  /** The same record except for the three model fields the PASS validator never reads. */
  predicate SameChecked(c: Classified, d: Classified) {
    && c.(counts := d.counts, model := d.model) == d
    && c.counts.Some? && d.counts.Some? && EqualCounts(c.counts.value, d.counts.value)
    && c.model.Model? && d.model.Model?
    && c.model.(classification := d.model.classification, runtimeCount := d.model.runtimeCount,
         sourceCount := d.model.sourceCount) == d.model
  }

  /** A record the classifier made from some acceptable failed run, with a reason to show for it. */
  ghost predicate FailureEvidence(cat: Catalog, text: Text, binding: Binding, c: Classified)
    requires ValidCatalog(cat)
  {
    && c.result == FAIL && Acceptable(cat, RawOf(c)) && SameRecord(c, Classify(cat, text, RawOf(c)))
    && c.reason.Str? && !Blank(text, c.reason.s) && Bound(binding, c.source)
  }

  /** A record the classifier made from some acceptable passing run, up to what the validator ignores. */
  ghost predicate PassEvidence(cat: Catalog, text: Text, binding: Binding, c: Classified)
    requires ValidCatalog(cat)
  {
    && c.result == PASS && Acceptable(cat, RawOf(c)) && SameChecked(c, Classify(cat, text, RawOf(c)))
    && Bound(binding, c.source)
  }

  // ----- the validators

  predicate Labelled(cat: Catalog, e: Evidence) {
    && e.raw.id.Str? && e.raw.id.s in cat.classes
    && e.class_ == ClassName(cat.classes[e.raw.id.s])
    && e.execution == Execution(cat.classes[e.raw.id.s], e.raw.status)
  }

  predicate AllLabelled(cat: Catalog, entries: seq<Evidence>) {
    forall i | 0 <= i < |entries| :: Labelled(cat, entries[i])
  }

  function Raws(entries: seq<Evidence>): (r: seq<Case>)
    ensures |r| == |entries| && forall i | 0 <= i < |entries| :: r[i] == entries[i].raw
  {
    seq(|entries|, i requires 0 <= i < |entries| => entries[i].raw)
  }

  /** The loop that collects the cases of a failed record, refusing a strange or repeated identifier. */
  method CollectCases(cat: Catalog, items: seq<Item<Evidence>>) returns (ok: bool)
    requires ValidCatalog(cat)
    ensures ok <==> AllDicts(items) && Covers(cat, Raws(Entries(items)))
  {
    var byId: set<string> := {};
    for k := 0 to |items|
      invariant AllDicts(items[..k]) && Named(Raws(Entries(items[..k])))
      invariant byId == Elements(Ids(Raws(Entries(items[..k])))) && byId <= cat.classes.Keys
      invariant Distinct(Ids(Raws(Entries(items[..k]))))
    {
      var item := items[k];
      if AllDicts(items) && Covers(cat, Raws(Entries(items))) {
        CoveredCase(cat, items, k);
      }
      if !item.Dict? || !item.entry.raw.id.Str? || item.entry.raw.id.s !in cat.classes || item.entry.raw.id.s in byId {
        return false;
      }
      CollectOne(items, k);
      byId := byId + {item.entry.raw.id.s};
    }
    assert items[..|items|] == items;
    ok := byId == cat.classes.Keys;
  }

  lemma CollectOne(items: seq<Item<Evidence>>, k: nat)
    requires k < |items| && AllDicts(items[..k]) && Named(Raws(Entries(items[..k])))
    requires items[k].Dict? && items[k].entry.raw.id.Str?
    ensures AllDicts(items[..k + 1]) && Named(Raws(Entries(items[..k + 1])))
    ensures Ids(Raws(Entries(items[..k + 1]))) == Ids(Raws(Entries(items[..k]))) + [items[k].entry.raw.id.s]
  {
    assert items[..k + 1] == items[..k] + [items[k]];
  }

  lemma CoveredCase(cat: Catalog, items: seq<Item<Evidence>>, k: nat)
    requires ValidCatalog(cat) && AllDicts(items) && Covers(cat, Raws(Entries(items))) && k < |items|
    ensures items[k].entry.raw.id.Str? && items[k].entry.raw.id.s in cat.classes
    ensures AllDicts(items[..k]) && Named(Raws(Entries(items[..k])))
    ensures items[k].entry.raw.id.s !in Ids(Raws(Entries(items[..k])))
  {
    var ids := Ids(Raws(Entries(items)));
    assert ids[k] in Elements(ids);
    assert ids[..k] == Ids(Raws(Entries(items[..k])));
  }

  /** What a failed record must say outside its cases, counts and model. */
  predicate FailHeader(text: Text, binding: Binding, c: Classified) {
    && c.schema == CLASSIFIED_SCHEMA && c.result == FAIL && c.evidenceResult == FAIL_EVIDENCE
    && Modest(c.qualification, c.compatibilityClaim, c.authorityEffect)
    && c.reason.Str? && !Blank(text, c.reason.s)
    && SourceBound(c.source) && Bound(binding, c.source)
  }

  predicate PassHeader(binding: Binding, c: Classified) {
    && c.schema == CLASSIFIED_SCHEMA && c.result == PASS && c.evidenceResult == PASS_EVIDENCE
    && Modest(c.qualification, c.compatibilityClaim, c.authorityEffect)
    && SourceBound(c.source) && c.source.cleanTree == Bool(true) && Bound(binding, c.source)
  }

  function SumOf(counts: Counts): real
    requires {ExecutedPass, SourceBoundPass, BestEffortPass, Fail, Blocked, Unexecuted} <= counts.Keys
    requires forall k | k in counts :: Numeric(counts[k])
  {
    Number(counts[ExecutedPass]) + Number(counts[SourceBoundPass]) + Number(counts[BestEffortPass])
    + Number(counts[Fail]) + Number(counts[Blocked]) + Number(counts[Unexecuted])
  }

  lemma SumIs(counts: Counts, a: nat, b: nat, c: nat, d: nat, e: nat, f: nat, total: nat)
    requires EqualCounts(counts, CountsOf(a, b, c, d, e, f, total))
    ensures {ExecutedPass, SourceBoundPass, BestEffortPass, Fail, Blocked, Unexecuted} <= counts.Keys
    ensures forall k | k in counts :: Numeric(counts[k])
    ensures SumOf(counts) == (a + b + c + d + e + f) as real
  {
  }

  lemma CountsAddUp(cat: Catalog, cases: seq<Case>, counts: Counts)
    requires ValidCatalog(cat) && Covers(cat, cases) && Disposed(cases)
    requires EqualCounts(counts, PartialCounts(cat, cases))
    ensures {ExecutedPass, SourceBoundPass, BestEffortPass, Fail, Blocked, Unexecuted} <= counts.Keys
    ensures forall k | k in counts :: Numeric(counts[k])
    ensures SumOf(counts) == |cat.classes| as real
  {
    var s := Statuses(cases);
    GuardHolds(cat, cases);
    SumIs(counts, PassCount(cat, cases, RuntimeObserved), PassCount(cat, cases, CompiledSourceBound),
      PassCount(cat, cases, BestEffortSourceBound), Count(s, FAIL), Count(s, BLOCKED),
      Count(s, UNEXECUTED) + Count(s, UNKNOWN), |cat.classes|);
  }

  /** The counts, and the guard after them that they add up, which never fails. */
  method CheckCounts(cat: Catalog, cases: seq<Case>, counts: Option<Counts>) returns (ok: bool)
    requires ValidCatalog(cat) && Covers(cat, cases) && Disposed(cases)
    ensures ok == (counts.Some? && EqualCounts(counts.value, PartialCounts(cat, cases)))
  {
    if counts.None? || !EqualCounts(counts.value, PartialCounts(cat, cases)) {
      return false;
    }
    CountsAddUp(cat, cases, counts.value);
    ok := SumOf(counts.value) == |cat.classes| as real;
  }

  lemma CountNumbers(cat: Catalog, cases: seq<Case>, counts: Counts)
    requires EqualCounts(counts, PartialCounts(cat, cases))
    ensures {ExecutedPass, SourceBoundPass, BestEffortPass} <= counts.Keys
    ensures Equal(counts[ExecutedPass], Int(PassCount(cat, cases, RuntimeObserved)))
    ensures Equal(counts[SourceBoundPass], Int(PassCount(cat, cases, CompiledSourceBound)))
    ensures Equal(counts[BestEffortPass], Int(PassCount(cat, cases, BestEffortSourceBound)))
  {
  }

  lemma EqualChain(v: Value, a: Value, b: Value)
    requires Numeric(a) && Numeric(b) && Number(a) == Number(b)
    ensures Equal(v, a) <==> Equal(v, b)
  {
  }

  /** The model of a failed record; its two numbers are compared with the record's own counts. */
  method CheckModel(cat: Catalog, cases: seq<Case>, counts: Counts, m: Model) returns (ok: bool)
    requires EqualCounts(counts, PartialCounts(cat, cases))
    ensures ok == ModelMatches(m, ModelOf(cat, false, cases))
  {
    CountNumbers(cat, cases, counts);
    var expected := ModelOf(cat, false, cases);
    if m.NoModel? {
      return false;
    }
    var sources := Float(Number(counts[SourceBoundPass]) + Number(counts[BestEffortPass]));
    EqualChain(m.runtimeCount, counts[ExecutedPass], expected.runtimeCount);
    EqualChain(m.sourceCount, sources, expected.sourceCount);
    ok := && m.(runtimeCount := expected.runtimeCount, sourceCount := expected.sourceCount) == expected
          && Equal(m.runtimeCount, counts[ExecutedPass]) && Equal(m.sourceCount, sources);
  }

  // ----- the raw report behind a record

  lemma StripEntries(c: Classified)
    requires c.cases.Some?
    ensures AllDicts(RawOf(c).cases.value) == AllDicts(c.cases.value)
    ensures AllDicts(c.cases.value) ==> Entries(RawOf(c).cases.value) == Raws(Entries(c.cases.value))
  {
    var items := c.cases.value;
    assert forall i | 0 <= i < |items| :: Strip(items)[i].Dict? == items[i].Dict?;
    if !AllDicts(items) {
      var i :| 0 <= i < |items| && !items[i].Dict?;
      assert !Strip(items)[i].Dict?;
    }
  }

  lemma LabelsAre(cat: Catalog, items: seq<Item<Evidence>>)
    requires AllDicts(items) && Classifiable(cat, Raws(Entries(items)))
    ensures AllLabelled(cat, Entries(items)) <==> items == Dicts(Labels(cat, Raws(Entries(items))))
  {
    var entries := Entries(items);
    var labels := Labels(cat, Raws(entries));
    forall i | 0 <= i < |entries| ensures Labelled(cat, entries[i]) <==> entries[i] == labels[i] {
      assert labels[i] == Label(cat, entries[i].raw);
    }
    if AllLabelled(cat, entries) {
      assert forall i | 0 <= i < |items| :: Labelled(cat, entries[i]) && items[i] == Dict(entries[i]);
      assert items == Dicts(labels);
    }
    if items == Dicts(labels) {
      assert forall i | 0 <= i < |items| :: items[i] == Dict(labels[i]);
    }
  }

  lemma FailureAcceptable(cat: Catalog, c: Classified)
    requires c.result == FAIL && c.cases.Some? && AllDicts(c.cases.value)
    ensures var cases := Raws(Entries(c.cases.value));
            Acceptable(cat, RawOf(c)) <==>
              && Modest(c.qualification, c.compatibilityClaim, c.authorityEffect) && SourceBound(c.source)
              && CasesAccepted(cat, false, cases) && c.rawCounts == Some(RawCounts(Statuses(cases)))
  {
    StripEntries(c);
    var cases := Raws(Entries(c.cases.value));
    assert RawOf(c).result != PASS;
    assert Acceptable(cat, RawOf(c)) <==>
      HeaderAccepted(RawOf(c)) && CasesAccepted(cat, false, cases)
          && RawOf(c).counts == Some(RawCounts(Statuses(cases)));
  }

  lemma SameFields(c: Classified, d: Classified)
    requires c.result == d.result && c.reason == d.reason && c.source == d.source && c.rawCounts == d.rawCounts
    requires c.qualification == d.qualification && c.compatibilityClaim == d.compatibilityClaim
        && c.authorityEffect == d.authorityEffect
    requires d.counts.Some?
    ensures SameRecord(c, d) <==>
              && c.schema == d.schema && c.evidenceResult == d.evidenceResult && c.cases == d.cases
              && c.counts.Some? && EqualCounts(c.counts.value, d.counts.value) && ModelMatches(c.model, d.model)
  {
  }

  /** The record `d` is what the classifier makes of a failed run with these cases. */
  ghost predicate FailureForm(cat: Catalog, text: Text, raw: Report, cases: seq<Case>, d: Classified) {
    && Classifiable(cat, cases)
    && d.schema == CLASSIFIED_SCHEMA && d.result == FAIL && d.evidenceResult == FAIL_EVIDENCE
    && d.reason == Str(ReasonText(text, raw.reason)) && d.source == raw.source && d.rawCounts == raw.counts
    && d.counts == Some(PartialCounts(cat, cases)) && d.cases == Some(Dicts(Labels(cat, cases)))
    && d.model == ModelOf(cat, false, cases) && d.qualification == raw.qualification
    && d.compatibilityClaim == raw.compatibilityClaim && d.authorityEffect == raw.authorityEffect
  }

  lemma FailureFields(cat: Catalog, text: Text, raw: Report)
    requires ValidCatalog(cat) && raw.result == FAIL && Acceptable(cat, raw)
    ensures FailureForm(cat, text, raw, Entries(raw.cases.value), Classify(cat, text, raw))
  {
    CoversClasses(cat, Entries(raw.cases.value));
    AssembledForm(cat, text, raw, Entries(raw.cases.value));
  }

  lemma AssembledForm(cat: Catalog, text: Text, raw: Report, cases: seq<Case>)
    requires Classifiable(cat, cases) && raw.result == FAIL
    ensures FailureForm(cat, text, raw, cases, Assemble(cat, text, raw, cases, Labels(cat, cases)))
  {
    assert raw.result != PASS;
  }

  lemma SameAsForm(cat: Catalog, text: Text, c: Classified, d: Classified)
    requires c.result == FAIL && c.reason.Str? && c.reason.s != ""
    requires c.cases.Some? && AllDicts(c.cases.value)
    requires FailureForm(cat, text, RawOf(c), Raws(Entries(c.cases.value)), d)
    ensures var cases := Raws(Entries(c.cases.value));
            SameRecord(c, d) <==>
              && c.schema == CLASSIFIED_SCHEMA && c.evidenceResult == FAIL_EVIDENCE
              && AllLabelled(cat, Entries(c.cases.value))
              && c.counts.Some? && EqualCounts(c.counts.value, PartialCounts(cat, cases))
              && ModelMatches(c.model, ModelOf(cat, false, cases))
  {
    LabelsAre(cat, c.cases.value);
    SameFields(c, d);
  }

  lemma FailureRecord(cat: Catalog, text: Text, c: Classified)
    requires ValidCatalog(cat) && c.result == FAIL && Acceptable(cat, RawOf(c))
    requires c.reason.Str? && c.reason.s != ""
    ensures AllDicts(c.cases.value)
    ensures var cases := Raws(Entries(c.cases.value));
            SameRecord(c, Classify(cat, text, RawOf(c))) <==>
              && c.schema == CLASSIFIED_SCHEMA && c.evidenceResult == FAIL_EVIDENCE
              && AllLabelled(cat, Entries(c.cases.value))
              && c.counts.Some? && EqualCounts(c.counts.value, PartialCounts(cat, cases))
              && ModelMatches(c.model, ModelOf(cat, false, cases))
  {
    StripEntries(c);
    FailureFields(cat, text, RawOf(c));
    SameAsForm(cat, text, c, Classify(cat, text, RawOf(c)));
  }

  /** What the checks on a failed record come to. */
  lemma FailureMeans(cat: Catalog, text: Text, binding: Binding, c: Classified)
    requires ValidCatalog(cat) && FailHeader(text, binding, c) && c.cases.Some? && AllDicts(c.cases.value)
    ensures var cases := Raws(Entries(c.cases.value));
            FailureEvidence(cat, text, binding, c) <==>
              && CasesAccepted(cat, false, cases) && c.rawCounts == Some(RawCounts(Statuses(cases)))
              && AllLabelled(cat, Entries(c.cases.value))
              && c.counts.Some? && EqualCounts(c.counts.value, PartialCounts(cat, cases))
              && ModelMatches(c.model, ModelOf(cat, false, cases))
  {
    FailureAcceptable(cat, c);
    if Acceptable(cat, RawOf(c)) {
      FailureRecord(cat, text, c);
    }
  }

  /** The validator of failed records accepts exactly the classifications of acceptable failed runs. */
  method ValidateFailed(cat: Catalog, text: Text, binding: Binding, c: Classified) returns (ok: bool)
    requires ValidCatalog(cat)
    ensures ok == FailureEvidence(cat, text, binding, c)
  {
    if !FailHeader(text, binding, c) || c.cases.None? {
      if c.cases.Some? {
        FailureHeader(cat, text, binding, c);
      }
      return false;
    }
    var collected := CollectCases(cat, c.cases.value);
    if !collected {
      StripEntries(c);
      return false;
    }
    FailureMeans(cat, text, binding, c);
    var entries := Entries(c.cases.value);
    var cases := Raws(entries);
    var bounded := CheckBoundary(cat.order, cases);
    var counted := CheckRawCounts(c.rawCounts, Statuses(cases));
    if !bounded || !counted || !SomeFailure(cases) || !Disposed(cases) || !AllLabelled(cat, entries) {
      return false;
    }
    ok := CheckCounts(cat, cases, c.counts);
    if ok {
      ok := CheckModel(cat, cases, c.counts.value, c.model);
    }
  }

  lemma FailureHeader(cat: Catalog, text: Text, binding: Binding, c: Classified)
    requires ValidCatalog(cat)
    ensures FailureEvidence(cat, text, binding, c) ==> FailHeader(text, binding, c)
  {
    if FailureEvidence(cat, text, binding, c) {
      FailureFields(cat, text, RawOf(c));
    }
  }
}
