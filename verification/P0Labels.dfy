/** What a classification says in its own words: the labels of its cases, its counts and its model. */
module P0Labels {
  import opened Sequences
  import opened P0Evidence
  import opened P0Classification
  import opened P0Pipeline

  function Executions(labels: seq<Evidence>): (r: seq<Value>)
    ensures |r| == |labels| && forall i | 0 <= i < |labels| :: r[i] == labels[i].execution
  {
    seq(|labels|, i requires 0 <= i < |labels| => labels[i].execution)
  }

  /** The texts a case can end with. */
  lemma TextsDiffer()
    ensures Distinct(["EXECUTED_PASS", "SOURCE_BOUND_PASS", "SOURCE_BOUND_BEST_EFFORT_PASS",
                      "FAIL", "BLOCKED", "UNEXECUTED", "UNKNOWN"])
  {
    assert |"EXECUTED_PASS"| == 13 && |"SOURCE_BOUND_PASS"| == 17 && |"SOURCE_BOUND_BEST_EFFORT_PASS"| == 29;
    assert |"FAIL"| == 4 && |"BLOCKED"| == 7 && |"UNEXECUTED"| == 10 && |"UNKNOWN"| == 7;
    assert "BLOCKED"[0] == 'B' && "UNKNOWN"[0] == 'U';
  }

  /** The text for a passed case of a class. */
  function PassText(c: Class): string {
    match c
    case RuntimeObserved => "EXECUTED_PASS"
    case CompiledSourceBound => "SOURCE_BOUND_PASS"
    case BestEffortSourceBound => "SOURCE_BOUND_BEST_EFFORT_PASS"
  }

  lemma PassTextsDiffer(c: Class, c': Class, v: Value)
    ensures PassText(c) == PassText(c') <==> c == c'
    ensures IsFailure(v) ==> v != Str(PassText(c))
  {
    var texts := ["EXECUTED_PASS", "SOURCE_BOUND_PASS", "SOURCE_BOUND_BEST_EFFORT_PASS",
      "FAIL", "BLOCKED", "UNEXECUTED", "UNKNOWN"];
    TextsDiffer();
    assert texts[0] != texts[1] && texts[0] != texts[2] && texts[1] != texts[2];
    assert forall i, j | 0 <= i < 3 <= j < 7 :: texts[i] != texts[j];
    assert texts[3] == "FAIL" && texts[4] == "BLOCKED" && texts[5] == "UNEXECUTED" && texts[6] == "UNKNOWN";
  }

  /** A case ends with the text of its class exactly when it is of the class and passed, and with a
      failure exactly when that is its status. */
  lemma LabelSays(cat: Catalog, raw: Case, c: Class, v: Value)
    requires raw.id.Str? && raw.id.s in cat.classes && (raw.status == PASS || IsFailure(raw.status))
    ensures Label(cat, raw).raw == raw
    ensures Label(cat, raw).execution == Str(PassText(c)) <==> raw.status == PASS && OfClass(cat, raw.id, c)
    ensures IsFailure(v) ==> (Label(cat, raw).execution == v <==> raw.status == v)
  {
    var own := cat.classes[raw.id.s];
    PassTextsDiffer(own, c, v);
    PassTextsDiffer(c, own, raw.status);
    OneStatus();
  }

  /** The class text of a case is the one of its class and of no other. */
  lemma ClassSays(cat: Catalog, raw: Case)
    requires raw.id.Str? && raw.id.s in cat.classes
    ensures var name := Label(cat, raw).class_;
            && (name == Str("RUNTIME_SOCKET_OBSERVED") <==> OfClass(cat, raw.id, RuntimeObserved))
            && (name == Str("EXACT_HEAD_COMPILED_SOURCE_BOUND") <==> OfClass(cat, raw.id, CompiledSourceBound))
            && (name == Str("BEST_EFFORT_CONTROLLED_DROP_SOURCE_BOUND") <==>
                  OfClass(cat, raw.id, BestEffortSourceBound))
  {
    assert |"RUNTIME_SOCKET_OBSERVED"| == 23 && |"EXACT_HEAD_COMPILED_SOURCE_BOUND"| == 32;
    assert |"BEST_EFFORT_CONTROLLED_DROP_SOURCE_BOUND"| == 40;
  }

  lemma CasesKnown(cat: Catalog, cases: seq<Case>)
    requires Disposed(cases) && cases != []
    requires forall i | 0 <= i < |cases| :: cases[i].id.Str? && cases[i].id.s in cat.classes
    ensures Labels(cat, cases) == [Label(cat, cases[0])] + Labels(cat, cases[1..])
    ensures Executions(Labels(cat, cases))[1..] == Executions(Labels(cat, cases[1..]))
    ensures Statuses(cases)[1..] == Statuses(cases[1..])
  {
  }

  /** The counts of the statuses are those of the texts. */
  lemma {:induction false} CountsAgree(cat: Catalog, cases: seq<Case>, c: Class, v: Value)
    requires Disposed(cases) && IsFailure(v)
    requires forall i | 0 <= i < |cases| :: cases[i].id.Str? && cases[i].id.s in cat.classes
    ensures PassCount(cat, cases, c) == Count(Executions(Labels(cat, cases)), Str(PassText(c)))
    ensures Count(Statuses(cases), v) == Count(Executions(Labels(cat, cases)), v)
  {
    if cases != [] {
      CasesKnown(cat, cases);
      LabelSays(cat, cases[0], c, v);
      CountsAgree(cat, cases[1..], c, v);
    }
  }

  /** The seven counts of a record. */
  predicate Counting(counts: Counts, executed: nat, compiled: nat, bestEffort: nat, fail: nat, blocked: nat,
                     unexecuted: nat, total: nat) {
    && counts.Keys == {ExecutedPass, SourceBoundPass, BestEffortPass, Fail, Blocked, Unexecuted, Key.Total}
    && counts[ExecutedPass] == Int(executed) && counts[SourceBoundPass] == Int(compiled)
    && counts[BestEffortPass] == Int(bestEffort) && counts[Fail] == Int(fail) && counts[Blocked] == Int(blocked)
    && counts[Unexecuted] == Int(unexecuted) && counts[Key.Total] == Int(total)
  }

  lemma CountsOfCounting(executed: nat, compiled: nat, bestEffort: nat, fail: nat, blocked: nat, unexecuted: nat,
                         total: nat)
    ensures Counting(CountsOf(executed, compiled, bestEffort, fail, blocked, unexecuted, total),
              executed, compiled, bestEffort, fail, blocked, unexecuted, total)
  {
  }

  function Times(executions: seq<Value>, text: string): nat {
    multiset(executions)[Str(text)]
  }

  /** Each count of the record is how often its text ends a case of the record; the total is all. */
  ghost predicate CountsSay(counts: Counts, executions: seq<Value>) {
    Counting(counts, Times(executions, "EXECUTED_PASS"), Times(executions, "SOURCE_BOUND_PASS"),
      Times(executions, "SOURCE_BOUND_BEST_EFFORT_PASS"), Times(executions, "FAIL"), Times(executions, "BLOCKED"),
      Times(executions, "UNEXECUTED") + Times(executions, "UNKNOWN"), |executions|)
  }

  lemma TimesIsCount(executions: seq<Value>, text: string)
    ensures Times(executions, text) == Count(executions, Str(text))
  {
    CountIsMultiplicity(executions, Str(text));
  }

  /** The numbers a failed record is made from, as numbers of texts. */
  lemma TextCounts(cat: Catalog, cases: seq<Case>)
    requires Disposed(cases)
    requires forall i | 0 <= i < |cases| :: cases[i].id.Str? && cases[i].id.s in cat.classes
    ensures var e := Executions(Labels(cat, cases));
            && PassCount(cat, cases, RuntimeObserved) == Times(e, "EXECUTED_PASS")
            && PassCount(cat, cases, CompiledSourceBound) == Times(e, "SOURCE_BOUND_PASS")
            && PassCount(cat, cases, BestEffortSourceBound) == Times(e, "SOURCE_BOUND_BEST_EFFORT_PASS")
            && Count(Statuses(cases), FAIL) == Times(e, "FAIL")
            && Count(Statuses(cases), BLOCKED) == Times(e, "BLOCKED")
            && Count(Statuses(cases), UNEXECUTED) == Times(e, "UNEXECUTED")
            && Count(Statuses(cases), UNKNOWN) == Times(e, "UNKNOWN")
  {
    var e := Executions(Labels(cat, cases));
    CountsAgree(cat, cases, RuntimeObserved, FAIL);
    CountsAgree(cat, cases, CompiledSourceBound, BLOCKED);
    CountsAgree(cat, cases, BestEffortSourceBound, UNEXECUTED);
    CountsAgree(cat, cases, BestEffortSourceBound, UNKNOWN);
    TimesIsCount(e, "EXECUTED_PASS");
    TimesIsCount(e, "SOURCE_BOUND_PASS");
    TimesIsCount(e, "SOURCE_BOUND_BEST_EFFORT_PASS");
    TimesIsCount(e, "FAIL");
    TimesIsCount(e, "BLOCKED");
    TimesIsCount(e, "UNEXECUTED");
    TimesIsCount(e, "UNKNOWN");
  }

  /** The counts of a failed record, from its cases. */
  predicate CountedFrom(cat: Catalog, cases: seq<Case>, counts: Counts) {
    Counting(counts, PassCount(cat, cases, RuntimeObserved), PassCount(cat, cases, CompiledSourceBound),
      PassCount(cat, cases, BestEffortSourceBound), Count(Statuses(cases), FAIL), Count(Statuses(cases), BLOCKED),
      Count(Statuses(cases), UNEXECUTED) + Count(Statuses(cases), UNKNOWN), |cat.classes|)
  }

  lemma PartialCounting(cat: Catalog, cases: seq<Case>)
    ensures CountedFrom(cat, cases, PartialCounts(cat, cases))
  {
    CountsOfCounting(PassCount(cat, cases, RuntimeObserved),
      PassCount(cat, cases, CompiledSourceBound), PassCount(cat, cases, BestEffortSourceBound),
      Count(Statuses(cases), FAIL), Count(Statuses(cases), BLOCKED),
      Count(Statuses(cases), UNEXECUTED) + Count(Statuses(cases), UNKNOWN), |cat.classes|);
  }

  lemma PartialCountsSay(cat: Catalog, cases: seq<Case>)
    requires ValidCatalog(cat) && Covers(cat, cases) && Disposed(cases)
    requires forall i | 0 <= i < |cases| :: cases[i].id.Str? && cases[i].id.s in cat.classes
    ensures CountsSay(PartialCounts(cat, cases), Executions(Labels(cat, cases)))
  {
    TextCounts(cat, cases);
    CoversCount(cat, cases);
    PartialCounting(cat, cases);
  }

  /** The parts of a classification. */
  lemma Parts(cat: Catalog, text: Text, raw: Report)
    requires ValidCatalog(cat) && Acceptable(cat, raw)
    ensures var cases := Entries(raw.cases.value);
            && Covers(cat, cases) && Disposed(cases)
            && (forall i | 0 <= i < |cases| :: cases[i].id.Str? && cases[i].id.s in cat.classes)
            && Classify(cat, text, raw).cases == Some(Dicts(Labels(cat, cases)))
            && Classify(cat, text, raw).counts == Some(PartialCounts(cat, cases))
            && Classify(cat, text, raw).model == ModelOf(cat, raw.result == PASS, cases)
  {
    var cases := Entries(raw.cases.value);
    CoversClasses(cat, cases);
    if raw.result == PASS { CompleteCountsAreCounts(cat, cases); }
  }

  lemma LabelsKeep(cat: Catalog, raws: seq<Item<Case>>, labels: seq<Evidence>)
    requires AllDicts(raws)
    requires forall i | 0 <= i < |raws| :: Entries(raws)[i].id.Str? && Entries(raws)[i].id.s in cat.classes
    requires labels == Labels(cat, Entries(raws))
    ensures AllDicts(Dicts(labels)) && Entries(Dicts(labels)) == labels && |labels| == |raws|
    ensures forall i | 0 <= i < |labels| :: raws[i] == Dict(labels[i].raw)
  {
    forall i | 0 <= i < |labels| ensures raws[i] == Dict(labels[i].raw) {
      assert labels[i] == Label(cat, Entries(raws)[i]);
    }
  }

  /** The record of any acceptable run agrees with itself: its cases are those of the run in their
      order, and its counts are those of its own texts. */
  lemma ClassificationSays(cat: Catalog, text: Text, raw: Report)
    requires ValidCatalog(cat) && Acceptable(cat, raw)
    ensures var c := Classify(cat, text, raw);
            && c.cases.Some? && AllDicts(c.cases.value) && |c.cases.value| == |raw.cases.value|
            && (forall i | 0 <= i < |c.cases.value| :: raw.cases.value[i] == Dict(Entries(c.cases.value)[i].raw))
            && c.counts.Some? && CountsSay(c.counts.value, Executions(Entries(c.cases.value)))
  {
    Parts(cat, text, raw);
    var cases := Entries(raw.cases.value);
    LabelsKeep(cat, raw.cases.value, Labels(cat, cases));
    PartialCountsSay(cat, cases);
  }

  /** The name of a model says how far the run came. */
  ghost predicate NameSays(name: Value, passing: bool, cases: seq<Case>) {
    && name.Str?
    && (passing ==> name.s == "MIXED_RUNTIME_AND_EXACT_HEAD_SOURCE_BOUND")
    && (!passing ==> name.s == if Str("PASS") in Statuses(cases) then "PARTIAL_EXECUTION_FAILURE"
                               else "EXECUTION_FAILED_BEFORE_COMPLETE_MATRIX")
  }

  lemma ModelNameSays(passing: bool, cases: seq<Case>)
    ensures NameSays(ModelName(passing, cases), passing, cases)
  {
    if SomePass(cases) {
      var i :| 0 <= i < |cases| && cases[i].status == PASS;
      assert Statuses(cases)[i] == PASS;
    }
  }

  /** The model repeats the counts of the record: its runtime number is the executed passes, its source
      number the other two kinds together. */
  ghost predicate ModelRepeats(m: Model, counts: Counts) {
    && m.Model? && {ExecutedPass, SourceBoundPass, BestEffortPass} <= counts.Keys
    && m.runtimeCount == counts[ExecutedPass] && counts[SourceBoundPass].Int? && counts[BestEffortPass].Int?
    && m.sourceCount == Int(counts[SourceBoundPass].i + counts[BestEffortPass].i)
  }

  /** The numbers of a model, from the cases. */
  predicate NumberedFrom(cat: Catalog, cases: seq<Case>, m: Model) {
    && m.Model? && m.runtimeCount == Int(PassCount(cat, cases, RuntimeObserved))
    && m.sourceCount == Int(PassCount(cat, cases, CompiledSourceBound) + PassCount(cat, cases, BestEffortSourceBound))
  }

  lemma ModelNumbers(cat: Catalog, passing: bool, cases: seq<Case>)
    requires passing ==> ValidCatalog(cat) && Covers(cat, cases) && AllPass(cases)
    ensures NumberedFrom(cat, cases, ModelOf(cat, passing, cases))
  {
    if passing {
      PassCountIsMembers(cat, cases, RuntimeObserved);
      PassCountIsMembers(cat, cases, CompiledSourceBound);
      PassCountIsMembers(cat, cases, BestEffortSourceBound);
    }
  }

  lemma RepeatsFrom(cat: Catalog, cases: seq<Case>, m: Model, counts: Counts)
    requires CountedFrom(cat, cases, counts) && NumberedFrom(cat, cases, m)
    ensures ModelRepeats(m, counts)
  {
  }

  lemma ModelSays(cat: Catalog, text: Text, raw: Report)
    requires ValidCatalog(cat) && Acceptable(cat, raw)
    ensures var c := Classify(cat, text, raw);
            && c.counts.Some? && ModelRepeats(c.model, c.counts.value)
            && NameSays(c.model.classification, raw.result == Str("PASS"), Entries(raw.cases.value))
  {
    var c := Classify(cat, text, raw);
    Parts(cat, text, raw);
    ModelNumbers(cat, raw.result == PASS, Entries(raw.cases.value));
    PartialCounting(cat, Entries(raw.cases.value));
    RepeatsFrom(cat, Entries(raw.cases.value), c.model, c.counts.value);
    ModelNameSays(raw.result == PASS, Entries(raw.cases.value));
  }
}
