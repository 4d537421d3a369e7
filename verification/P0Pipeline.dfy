/** The validator of passing records, and the way from a run to a validated record. */
module P0Pipeline {
  import opened Sequences
  import opened P0Evidence
  import opened P0Source
  import opened P0Classification
  import opened P0Validation

  // ----- the validator of passing records

  /** The string identifiers of those entries that are dictionaries. */
  function KnownIds(items: seq<Item<Evidence>>): (r: seq<string>)
    ensures |r| <= |items|
  {
    if items == [] then []
    else (if items[0].Dict? && items[0].entry.raw.id.Str? then [items[0].entry.raw.id.s] else []) + KnownIds(items[1..])
  }

  lemma {:induction false} AllKnown(items: seq<Item<Evidence>>)
    ensures |KnownIds(items)| == |items| <==> AllDicts(items) && Named(Raws(Entries(items)))
    ensures |KnownIds(items)| == |items| ==> KnownIds(items) == Ids(Raws(Entries(items)))
  {
    if items != [] {
      AllKnown(items[1..]);
      assert forall i | 1 <= i < |items| :: items[i] == items[1..][i - 1];
      if AllDicts(items) && Named(Raws(Entries(items))) {
        assert forall i | 0 <= i < |items| :: Raws(Entries(items))[i].id.Str?;
        assert forall i | 0 <= i < |items[1..]| :: Raws(Entries(items[1..]))[i] == Raws(Entries(items))[i + 1];
      }
      if |KnownIds(items)| == |items| {
        KnownHead(items);
      }
    }
  }

  lemma KnownHead(items: seq<Item<Evidence>>)
    requires items != [] && |KnownIds(items)| == |items|
    requires AllDicts(items[1..]) && Named(Raws(Entries(items[1..])))
    requires KnownIds(items[1..]) == Ids(Raws(Entries(items[1..])))
    ensures AllDicts(items) && Named(Raws(Entries(items)))
    ensures KnownIds(items) == Ids(Raws(Entries(items)))
  {
    assert forall i | 1 <= i < |items| :: items[i] == items[1..][i - 1];
    var raws := Raws(Entries(items));
    assert forall i | 1 <= i < |items| :: raws[i] == Raws(Entries(items[1..]))[i - 1];
    assert KnownIds(items) == [items[0].entry.raw.id.s] + Ids(Raws(Entries(items[1..])));
  }

  /** Building the dictionary of cases loses none exactly when each canonical case is there once. */
  method CollectPassed(cat: Catalog, items: seq<Item<Evidence>>) returns (ok: bool)
    requires ValidCatalog(cat)
    ensures ok <==> AllDicts(items) && Covers(cat, Raws(Entries(items)))
  {
    var known := KnownIds(items);
    var ids := set id | id in known;
    assert ids == Elements(known);
    ok := |ids| == |items| && ids == cat.classes.Keys;
    AllKnown(items);
    CardDistinct(known);
    if |ids| == |items| {
      CardDistinct(known);
    }
    if AllDicts(items) && Covers(cat, Raws(Entries(items))) {
      DistinctCard(known);
    }
  }

  lemma {:induction false} LookupFinds(cases: seq<Case>, i: nat)
    requires Named(cases) && i < |cases| && Distinct(Ids(cases))
    ensures Lookup(cases, Ids(cases)[i]) == Some(cases[i])
  {
    var id := Ids(cases)[i];
    if i > 0 {
      assert Ids(cases)[0] != id;
      assert Ids(cases[1..]) == Ids(cases)[1..];
      LookupFinds(cases[1..], i - 1);
    }
  }

  lemma {:induction false} PassedIdsAll(cat: Catalog, order: seq<string>, cases: seq<Case>, c: Class)
    requires forall id | id in order :: PassedCase(cases, id)
    ensures PassedIds(cat, order, cases, c) == ClassIds(cat, order, c)
  {
    if order != [] {
      assert order[0] in order;
      PassedIdsAll(cat, order[1..], cases, c);
    }
  }

  lemma CompleteIds(cat: Catalog, cases: seq<Case>, c: Class)
    requires Covers(cat, cases) && AllPass(cases)
    ensures PassedIds(cat, cat.order, cases, c) == ClassIds(cat, cat.order, c)
  {
    forall id | id in cat.order ensures PassedCase(cases, id) {
      assert id in Elements(Ids(cases));
      var i :| 0 <= i < |cases| && Ids(cases)[i] == id;
      LookupFinds(cases, i);
    }
    PassedIdsAll(cat, cat.order, cases, c);
  }

  predicate ModelChecked(cat: Catalog, m: Model) {
    && m.Model? && m.runtimeIds == List(ClassIds(cat, cat.order, RuntimeObserved))
    && m.compiledIds == List(ClassIds(cat, cat.order, CompiledSourceBound))
    && m.bestEffortIds == List(ClassIds(cat, cat.order, BestEffortSourceBound))
    && m.sourceIsRuntime == Bool(false)
  }

  lemma PassAcceptable(cat: Catalog, c: Classified)
    requires c.result == PASS && c.cases.Some? && AllDicts(c.cases.value)
    ensures var cases := Raws(Entries(c.cases.value));
            Acceptable(cat, RawOf(c)) <==>
              && Modest(c.qualification, c.compatibilityClaim, c.authorityEffect) && SourceBound(c.source)
              && c.source.cleanTree == Bool(true)
              && CasesAccepted(cat, true, cases) && c.rawCounts == Some(RawCounts(Statuses(cases)))
  {
    StripEntries(c);
  }

  /** The record `d` is what the classifier makes of a passing run with these cases. */
  ghost predicate PassForm(cat: Catalog, raw: Report, cases: seq<Case>, d: Classified) {
    && Classifiable(cat, cases)
    && d.schema == CLASSIFIED_SCHEMA && d.result == PASS && d.evidenceResult == PASS_EVIDENCE
    && d.reason == raw.reason && d.source == raw.source && d.rawCounts == raw.counts
    && d.counts == Some(CompleteCounts(cat)) && d.cases == Some(Dicts(Labels(cat, cases)))
    && d.model == ModelOf(cat, true, cases) && d.qualification == raw.qualification
    && d.compatibilityClaim == raw.compatibilityClaim && d.authorityEffect == raw.authorityEffect
  }

  lemma PassFields(cat: Catalog, text: Text, raw: Report)
    requires ValidCatalog(cat) && raw.result == PASS && Acceptable(cat, raw)
    ensures PassForm(cat, raw, Entries(raw.cases.value), Classify(cat, text, raw))
  {
    CoversClasses(cat, Entries(raw.cases.value));
  }

  lemma CheckedFields(c: Classified, d: Classified)
    requires c.result == d.result && c.reason == d.reason && c.source == d.source && c.rawCounts == d.rawCounts
    requires c.qualification == d.qualification && c.compatibilityClaim == d.compatibilityClaim
        && c.authorityEffect == d.authorityEffect
    requires d.counts.Some? && d.model.Model?
    ensures SameChecked(c, d) <==>
              && c.schema == d.schema && c.evidenceResult == d.evidenceResult && c.cases == d.cases
              && c.counts.Some? && EqualCounts(c.counts.value, d.counts.value)
              && c.model.Model? && c.model.runtimeIds == d.model.runtimeIds
              && c.model.compiledIds == d.model.compiledIds
              && c.model.bestEffortIds == d.model.bestEffortIds && c.model.sourceIsRuntime == d.model.sourceIsRuntime
  {
  }

  lemma CheckedAsForm(cat: Catalog, c: Classified, d: Classified)
    requires c.result == PASS && c.cases.Some? && AllDicts(c.cases.value)
    requires Covers(cat, Raws(Entries(c.cases.value))) && AllPass(Raws(Entries(c.cases.value)))
    requires PassForm(cat, RawOf(c), Raws(Entries(c.cases.value)), d)
    ensures SameChecked(c, d) <==>
              && c.schema == CLASSIFIED_SCHEMA && c.evidenceResult == PASS_EVIDENCE
              && AllLabelled(cat, Entries(c.cases.value))
              && c.counts.Some? && EqualCounts(c.counts.value, CompleteCounts(cat)) && ModelChecked(cat, c.model)
  {
    var cases := Raws(Entries(c.cases.value));
    LabelsAre(cat, c.cases.value);
    CheckedFields(c, d);
    CompleteIds(cat, cases, RuntimeObserved);
    CompleteIds(cat, cases, CompiledSourceBound);
    CompleteIds(cat, cases, BestEffortSourceBound);
  }

  lemma PassRecord(cat: Catalog, text: Text, c: Classified)
    requires ValidCatalog(cat) && c.result == PASS && Acceptable(cat, RawOf(c))
    ensures AllDicts(c.cases.value)
    ensures SameChecked(c, Classify(cat, text, RawOf(c))) <==>
              && c.schema == CLASSIFIED_SCHEMA && c.evidenceResult == PASS_EVIDENCE
              && AllLabelled(cat, Entries(c.cases.value))
              && c.counts.Some? && EqualCounts(c.counts.value, CompleteCounts(cat)) && ModelChecked(cat, c.model)
  {
    StripEntries(c);
    PassFields(cat, text, RawOf(c));
    CheckedAsForm(cat, c, Classify(cat, text, RawOf(c)));
  }

  lemma PassMeans(cat: Catalog, text: Text, binding: Binding, c: Classified)
    requires ValidCatalog(cat) && PassHeader(binding, c) && c.cases.Some? && AllDicts(c.cases.value)
    ensures var cases := Raws(Entries(c.cases.value));
            PassEvidence(cat, text, binding, c) <==>
              && CasesAccepted(cat, true, cases) && c.rawCounts == Some(RawCounts(Statuses(cases)))
              && AllLabelled(cat, Entries(c.cases.value))
              && c.counts.Some? && EqualCounts(c.counts.value, CompleteCounts(cat)) && ModelChecked(cat, c.model)
  {
    PassAcceptable(cat, c);
    if Acceptable(cat, RawOf(c)) {
      PassRecord(cat, text, c);
    }
  }

  lemma PassedHeader(cat: Catalog, text: Text, binding: Binding, c: Classified)
    requires ValidCatalog(cat)
    ensures PassEvidence(cat, text, binding, c) ==> PassHeader(binding, c)
  {
    if PassEvidence(cat, text, binding, c) {
      PassFields(cat, text, RawOf(c));
    }
  }

  method CheckComplete(cat: Catalog, counts: Option<Counts>) returns (ok: bool)
    requires |Members(cat, RuntimeObserved)| == 11
    ensures ok == (counts.Some? && EqualCounts(counts.value, CompleteCounts(cat)))
  {
    if counts.None? || !EqualCounts(counts.value, CompleteCounts(cat)) {
      return false;
    }
    ok := Equal(counts.value[ExecutedPass], Int(11));
  }

  /** The validator of passing records accepts exactly the classifications of acceptable passing runs,
      reading neither the model's name nor its two numbers. */
  method ValidatePassed(cat: Catalog, ghost text: Text, binding: Binding, c: Classified) returns (ok: bool)
    requires ValidCatalog(cat) && |Members(cat, RuntimeObserved)| == 11
    ensures ok == PassEvidence(cat, text, binding, c)
  {
    PassedHeader(cat, text, binding, c);
    if !PassHeader(binding, c) || c.cases.None? {
      return false;
    }
    var collected := CollectPassed(cat, c.cases.value);
    if !collected {
      StripEntries(c);
      return false;
    }
    PassMeans(cat, text, binding, c);
    var entries := Entries(c.cases.value);
    var cases := Raws(entries);
    var counted := CheckRawCounts(c.rawCounts, Statuses(cases));
    if !counted || !AllPass(cases) || !AllLabelled(cat, entries) {
      return false;
    }
    var complete := CheckComplete(cat, c.counts);
    ok := complete && ModelChecked(cat, c.model);
  }

  // ----- from a run to a validated record

  lemma MatrixCovers(cat: Catalog, partial: Option<seq<Item<Case>>>)
    requires ValidCatalog(cat)
    ensures Named(FailureCases(cat.order, partial)) && Ids(FailureCases(cat.order, partial)) == cat.order
    ensures Covers(cat, FailureCases(cat.order, partial))
  {
    forall i | 0 <= i < |cat.order| ensures FailureCases(cat.order, partial)[i].id == Str(cat.order[i]) {
      MatrixNames(cat.order, partial, i);
    }
  }

  /** The statuses of a failure matrix: PASS up to a boundary, then failures. */
  lemma MatrixStatuses(order: seq<string>, partial: Option<seq<Item<Case>>>) returns (n: nat)
    requires order != []
    ensures n < |order|
    ensures forall i | 0 <= i < n :: FailureCases(order, partial)[i].status == PASS
    ensures forall i | n <= i < |order| :: IsFailure(FailureCases(order, partial)[i].status)
    ensures FailureCases(order, partial)[n].status != PASS
  {
    if partial.Some? {
      n := MatrixShape(order, partial.value);
    } else {
      n := 0;
    }
  }

  lemma MatrixAccepted(cat: Catalog, partial: Option<seq<Item<Case>>>)
    requires ValidCatalog(cat)
    ensures CasesAccepted(cat, false, FailureCases(cat.order, partial))
  {
    var cases := FailureCases(cat.order, partial);
    var n := MatrixStatuses(cat.order, partial);
    MatrixCovers(cat, partial);
    assert IsFailure(cases[n].status);
    forall i | 0 <= i < |cat.order| ensures PassedCase(cases, cat.order[i]) <==> i < n {
      LookupFinds(cases, i);
      FailureIsNotPass(cases[i].status);
    }
  }

  lemma FailureIsNotPass(v: Value)
    ensures !(IsFailure(v) && v == PASS)
  {
    OneStatus();
  }

  /** However a run breaks off, its FAIL report classifies; only the source record can stop it. */
  lemma FailReportAcceptable(cat: Catalog, partial: Option<seq<Item<Case>>>, message: string, source: Source)
    requires ValidCatalog(cat)
    ensures Acceptable(cat, FailReport(cat.order, partial, message, source)) <==> SourceBound(source)
  {
    var raw := FailReport(cat.order, partial, message, source);
    MatrixAccepted(cat, partial);
    assert Entries(raw.cases.value) == FailureCases(cat.order, partial);
    assert raw.result != PASS;
  }

  lemma LabelsBack(cat: Catalog, cases: seq<Case>)
    requires Classifiable(cat, cases)
    ensures Entries(Dicts(Labels(cat, cases))) == Labels(cat, cases) && Raws(Labels(cat, cases)) == cases
    ensures AllLabelled(cat, Labels(cat, cases))
  {
    forall i | 0 <= i < |cases| ensures Labelled(cat, Labels(cat, cases)[i]) {
      assert Labels(cat, cases)[i] == Label(cat, cases[i]);
    }
  }

  lemma EqualCountsReflexive(counts: Counts)
    ensures EqualCounts(counts, counts)
  {
  }

  lemma FormHeader(cat: Catalog, text: Text, binding: Binding, raw: Report, cases: seq<Case>, d: Classified)
    requires FailureForm(cat, text, raw, cases, d) && HeaderAccepted(raw) && Bound(binding, raw.source)
    requires !Blank(text, ReasonText(text, raw.reason))
    ensures FailHeader(text, binding, d)
  {
  }

  lemma FormValidates(cat: Catalog, text: Text, binding: Binding, raw: Report, cases: seq<Case>, d: Classified)
    requires ValidCatalog(cat) && FailureForm(cat, text, raw, cases, d) && CasesAccepted(cat, false, cases)
    requires raw.counts == Some(RawCounts(Statuses(cases))) && FailHeader(text, binding, d)
    ensures FailureEvidence(cat, text, binding, d)
  {
    LabelsBack(cat, cases);
    assert Raws(Entries(d.cases.value)) == cases;
    EqualCountsReflexive(PartialCounts(cat, cases));
    ModelReflexive(ModelOf(cat, false, cases));
    FailureMeans(cat, text, binding, d);
  }

  lemma ModelReflexive(m: Model)
    requires m.Model?
    ensures ModelMatches(m, m)
  {
  }

  /** A failed run's classification validates exactly when its reason shows something and its source is
      the one the caller expects. */
  lemma FailureValidates(cat: Catalog, text: Text, binding: Binding, raw: Report)
    requires ValidCatalog(cat) && raw.result == FAIL && Acceptable(cat, raw)
    ensures FailureEvidence(cat, text, binding, Classify(cat, text, raw))
            <==> !Blank(text, ReasonText(text, raw.reason)) && Bound(binding, raw.source)
  {
    FailureFields(cat, text, raw);
    var d := Classify(cat, text, raw);
    if !Blank(text, ReasonText(text, raw.reason)) && Bound(binding, raw.source) {
      assert raw.result != PASS;
      FormHeader(cat, text, binding, raw, Entries(raw.cases.value), d);
      FormValidates(cat, text, binding, raw, Entries(raw.cases.value), d);
    } else {
      assert Blank(text, d.reason.s) || !Bound(binding, d.source);
    }
  }

  lemma PassFormHeader(cat: Catalog, binding: Binding, raw: Report, cases: seq<Case>, d: Classified)
    requires PassForm(cat, raw, cases, d) && HeaderAccepted(raw) && raw.result == PASS && Bound(binding, raw.source)
    ensures PassHeader(binding, d)
  {
  }

  lemma PassFormModel(cat: Catalog, cases: seq<Case>)
    requires Covers(cat, cases) && AllPass(cases)
    ensures ModelChecked(cat, ModelOf(cat, true, cases))
  {
    CompleteIds(cat, cases, RuntimeObserved);
    CompleteIds(cat, cases, CompiledSourceBound);
    CompleteIds(cat, cases, BestEffortSourceBound);
  }

  lemma PassFormValidates(cat: Catalog, text: Text, binding: Binding, raw: Report, cases: seq<Case>, d: Classified)
    requires ValidCatalog(cat) && PassForm(cat, raw, cases, d) && CasesAccepted(cat, true, cases)
    requires raw.counts == Some(RawCounts(Statuses(cases))) && PassHeader(binding, d)
    ensures PassEvidence(cat, text, binding, d)
  {
    LabelsBack(cat, cases);
    EqualCountsReflexive(CompleteCounts(cat));
    PassFormModel(cat, cases);
    PassMeans(cat, text, binding, d);
  }

  /** A passing run's classification validates exactly when its source is the one the caller expects. */
  lemma PassValidates(cat: Catalog, text: Text, binding: Binding, raw: Report)
    requires ValidCatalog(cat) && raw.result == PASS && Acceptable(cat, raw)
    ensures PassEvidence(cat, text, binding, Classify(cat, text, raw)) <==> Bound(binding, raw.source)
  {
    PassFields(cat, text, raw);
    if Bound(binding, raw.source) {
      PassFormHeader(cat, binding, raw, Entries(raw.cases.value), Classify(cat, text, raw));
      PassFormValidates(cat, text, binding, raw, Entries(raw.cases.value), Classify(cat, text, raw));
    }
  }

  /** A record whose model claims any name and any numbers validates like the one the classifier made. */
  lemma ModelNameUnread(cat: Catalog, text: Text, binding: Binding, raw: Report, name: Value, runtime: Value,
      source: Value)
    requires ValidCatalog(cat) && raw.result == PASS && Acceptable(cat, raw) && Bound(binding, raw.source)
    ensures var d := Classify(cat, text, raw);
            && d.model.Model?
            && PassEvidence(cat, text, binding, d.(model :=
                 d.model.(classification := name, runtimeCount := runtime, sourceCount := source)))
  {
    PassValidates(cat, text, binding, raw);
    PassFields(cat, text, raw);
    var d := Classify(cat, text, raw);
    var c := d.(model := d.model.(classification := name, runtimeCount := runtime, sourceCount := source));
    assert RawOf(c) == RawOf(d);
  }

  /** The report classifies, and its classification validates as a failure from the source the caller
      expects. */
  ghost predicate Recorded(cat: Catalog, text: Text, binding: Binding, raw: Report)
    requires ValidCatalog(cat)
  {
    Acceptable(cat, raw) && FailureEvidence(cat, text, binding, Classify(cat, text, raw))
  }

  /** The whole way from a broken run to a validated failure record: the source record must be
      well-formed and the expected one, and the message must not be white space and nothing else; an
      empty message is replaced and passes. */
  lemma BrokenRunValidates(cat: Catalog, text: Text, binding: Binding, partial: Option<seq<Item<Case>>>,
                           message: string, source: Source)
    requires ValidCatalog(cat) && !text.space('P')
    ensures Recorded(cat, text, binding, FailReport(cat.order, partial, message, source))
            <==> SourceBound(source) && Bound(binding, source) && (message == "" || !Blank(text, message))
  {
    FailReportAcceptable(cat, partial, message, source);
    if SourceBound(source) {
      FailureValidates(cat, text, binding, FailReport(cat.order, partial, message, source));
      assert DEFAULT_REASON[0] == 'P';
    }
  }

  /** The same with the source record that is made when a run fails, for any options, environment,
      checkout and expectations. */
  lemma FailedRunRecorded(cat: Catalog, text: Text, binding: Binding, partial: Option<seq<Item<Case>>>,
                          message: string, args: Arguments, env: Environment, checkout: Checkout)
    requires ValidCatalog(cat) && !text.space('P')
    ensures Recorded(cat, text, binding, FailReport(cat.order, partial, message, FailureSource(args, env, checkout)))
            <==> && WellNamed(args, env) && Bound(binding, FailureSource(args, env, checkout))
                 && (message == "" || !Blank(text, message))
  {
    BrokenRunValidates(cat, text, binding, partial, message, FailureSource(args, env, checkout));
    FailureSourceBound(args, env, checkout);
  }

  /** A caller that gives the runner and the validator the same repository, commit and tree, as the
      workflows do, loses a failed run exactly when one of the three is malformed or the message is
      blank: neither the environment nor the checkout matters. */
  lemma WorkflowRunRecorded(cat: Catalog, text: Text, partial: Option<seq<Item<Case>>>, message: string,
                            repository: string, commit: string, tree: string, env: Environment, checkout: Checkout)
    requires ValidCatalog(cat) && !text.space('P')
    ensures var source := FailureSource(Arguments(Some(repository), Some(commit), Some(tree)), env, checkout);
            Recorded(cat, text, Binding(Some(repository), Some(commit), Some(tree)),
                FailReport(cat.order, partial, message, source))
            <==> && Str(repository) == REPOSITORY && Sha40(Str(commit)) && Sha40(Str(tree))
                 && (message == "" || !Blank(text, message))
  {
    var args := Arguments(Some(repository), Some(commit), Some(tree));
    FailedRunRecorded(cat, text, Binding(Some(repository), Some(commit), Some(tree)), partial, message, args, env,
        checkout);
    SameThree(repository, commit, tree, env, checkout);
  }

  lemma SameThree(repository: string, commit: string, tree: string, env: Environment, checkout: Checkout)
    ensures var args := Arguments(Some(repository), Some(commit), Some(tree));
            && WellNamed(args, env)
            && Bound(Binding(Some(repository), Some(commit), Some(tree)), FailureSource(args, env, checkout))
            <==> Str(repository) == REPOSITORY && Sha40(Str(commit)) && Sha40(Str(tree))
  {
    var args := Arguments(Some(repository), Some(commit), Some(tree));
    RepositoryIs();
    GivenSource(args, env, checkout);
    FailureSourceBound(args, env, checkout);
  }

  /** A failing input: a message of one space, whatever the rest. */
  lemma SpaceIsNotRecorded(cat: Catalog, text: Text, binding: Binding, partial: Option<seq<Item<Case>>>, source: Source)
    requires ValidCatalog(cat) && !text.space('P') && text.space(' ') && SourceBound(source)
    ensures var raw := FailReport(cat.order, partial, " ", source);
            Acceptable(cat, raw) && !FailureEvidence(cat, text, binding, Classify(cat, text, raw))
  {
    FailReportAcceptable(cat, partial, " ", source);
    BrokenRunValidates(cat, text, binding, partial, " ", source);
  }

  /** A failing input: no repository named by the caller or the environment, whatever the message. */
  lemma UnknownIsNotRecorded(cat: Catalog, partial: Option<seq<Item<Case>>>, message: string, checkout: Checkout)
    requires ValidCatalog(cat)
    ensures var source := FailureSource(Arguments(None, None, None), Environment(None, None), checkout);
            && source.Source? && source.repository == Str("unknown")
            && !Acceptable(cat, FailReport(cat.order, partial, message, source))
  {
    UnknownSource(checkout);
    var source := FailureSource(Arguments(None, None, None), Environment(None, None), checkout);
    FailReportAcceptable(cat, partial, message, source);
  }

  /** A failing input: the right repository but no commit option, a checkout git cannot describe, and a
      caller that expects a commit. The record is classified with a commit of zeros and then refused. */
  lemma ZerosAreNotRecorded(cat: Catalog, text: Text, partial: Option<seq<Item<Case>>>, message: string,
                            env: Environment, commit: string)
    requires ValidCatalog(cat) && !text.space('P') && commit != ZEROS
    ensures var source := FailureSource(Arguments(Some(REPOSITORY.s), None, None), env, Checkout(None, None, None));
            var raw := FailReport(cat.order, partial, message, source);
            && source.Source? && source.commit == Str(ZEROS) && Acceptable(cat, raw)
            && !FailureEvidence(cat, text, Binding(None, Some(commit), None), Classify(cat, text, raw))
  {
    ZeroSource(env);
    var source := FailureSource(Arguments(Some(REPOSITORY.s), None, None), env, Checkout(None, None, None));
    FailReportAcceptable(cat, partial, message, source);
    BrokenRunValidates(cat, text, Binding(None, Some(commit), None), partial, message, source);
  }

  /** No record holding a failure matrix validates as a pass, whatever the rest of it says. */
  lemma FailureNeverPasses(cat: Catalog, text: Text, binding: Binding, partial: Option<seq<Item<Case>>>, c: Classified)
    requires ValidCatalog(cat) && c.cases.Some? && AllDicts(c.cases.value)
    requires Raws(Entries(c.cases.value)) == FailureCases(cat.order, partial)
    ensures !PassEvidence(cat, text, binding, c)
  {
    var n := MatrixStatuses(cat.order, partial);
    var cases := FailureCases(cat.order, partial);
    assert cases[n].status != PASS;
    StripEntries(c);
    assert !AllPass(cases);
  }

  // ----- the counts of a passing record

  function IdsOfClass(cat: Catalog, ids: seq<string>, c: Class): set<string> {
    set id | id in ids && OfClass(cat, Str(id), c)
  }

  lemma IdsOfClassCons(cat: Catalog, id: string, ids: seq<string>, c: Class)
    requires id !in ids
    ensures IdsOfClass(cat, [id] + ids, c) == IdsOfClass(cat, ids, c) + (if OfClass(cat, Str(id), c) then {id} else {})
    ensures id !in IdsOfClass(cat, ids, c)
  {
  }

  lemma {:induction false} PassCountIsCard(cat: Catalog, cases: seq<Case>, c: Class)
    requires Named(cases) && Distinct(Ids(cases)) && AllPass(cases)
    ensures PassCount(cat, cases, c) == |IdsOfClass(cat, Ids(cases), c)|
  {
    if cases == [] {
      assert IdsOfClass(cat, Ids(cases), c) == {};
    } else {
      var ids := Ids(cases);
      assert ids == [ids[0]] + Ids(cases[1..]);
      PassCountIsCard(cat, cases[1..], c);
      IdsOfClassCons(cat, ids[0], Ids(cases[1..]), c);
    }
  }

  lemma PassCountIsMembers(cat: Catalog, cases: seq<Case>, c: Class)
    requires ValidCatalog(cat) && Covers(cat, cases) && AllPass(cases)
    ensures PassCount(cat, cases, c) == |Members(cat, c)|
  {
    PassCountIsCard(cat, cases, c);
    assert forall id :: id in Ids(cases) <==> id in Elements(Ids(cases));
    assert Members(cat, c) == IdsOfClass(cat, Ids(cases), c);
  }

  lemma {:induction false} NoneOf(cases: seq<Case>, v: Value)
    requires AllPass(cases) && v != PASS
    ensures Count(Statuses(cases), v) == 0
  {
    if cases != [] {
      NoneOf(cases[1..], v);
      assert Statuses(cases)[1..] == Statuses(cases[1..]);
    }
  }

  /** The constants written for a passing run are the counts of its cases. */
  lemma CompleteCountsAreCounts(cat: Catalog, cases: seq<Case>)
    requires ValidCatalog(cat) && Covers(cat, cases) && AllPass(cases)
    ensures CompleteCounts(cat) == PartialCounts(cat, cases)
  {
    PassCountIsMembers(cat, cases, RuntimeObserved);
    PassCountIsMembers(cat, cases, CompiledSourceBound);
    PassCountIsMembers(cat, cases, BestEffortSourceBound);
    OneStatus();
    NoneOf(cases, FAIL);
    NoneOf(cases, BLOCKED);
    NoneOf(cases, UNEXECUTED);
    NoneOf(cases, UNKNOWN);
  }
}
