/** What a probe's output says about its run: the status extractors, the validators, and the
    conclusion drawn from both. */
module ProbeResults {
  import opened Sequences
  import opened Json

  datatype Status = ExecutedPass | ExecutedFail | Blocked | Unknown | Unexecuted

  /** The value of a key, Null when it is absent. */
  function Get(d: Json, key: string): Json {
    if d.Object? then Find(d.members, key) else Null
  }

  function Find(members: seq<(string, Json)>, key: string): Json {
    if members == [] then Null else if members[0].0 == key then members[0].1 else Find(members[1..], key)
  }

  function Normalize(raw: Json): Option<Status> {
    if raw == Text("PASS") || raw == Text("EXECUTED_PASS") then Some(ExecutedPass)
    else if raw == Text("FAIL") || raw == Text("EXECUTED_FAIL") then Some(ExecutedFail)
    else if raw == Text("BLOCKED") then Some(Blocked)
    else if raw == Text("UNKNOWN") then Some(Unknown)
    else if raw == Text("UNEXECUTED") then Some(Unexecuted)
    else None
  }

  /** What a text may say for a status. */
  function Spellings(s: Status): set<string> {
    match s
    case ExecutedPass => {"PASS", "EXECUTED_PASS"}
    case ExecutedFail => {"FAIL", "EXECUTED_FAIL"}
    case Blocked => {"BLOCKED"}
    case Unknown => {"UNKNOWN"}
    case Unexecuted => {"UNEXECUTED"}
  }

  lemma NormalizeReads(raw: Json, s: Status)
    ensures Normalize(raw) == Some(s) <==> raw.Text? && raw.text in Spellings(s)
  {
    assert |"PASS"| == 4 && |"FAIL"| == 4 && |"EXECUTED_PASS"| == 13 && |"EXECUTED_FAIL"| == 13;
    assert |"BLOCKED"| == 7 && |"UNKNOWN"| == 7 && |"UNEXECUTED"| == 10;
    assert "PASS"[0] == 'P' && "FAIL"[0] == 'F' && "EXECUTED_PASS"[9] == 'P' && "EXECUTED_FAIL"[9] == 'F';
    assert "BLOCKED"[0] == 'B' && "UNKNOWN"[0] == 'U';
  }

  /** The value of a key is that of its first member, and Null without one. */
  lemma {:induction false} FindIsFirst(members: seq<(string, Json)>, key: string, i: nat)
    requires i <= |members| && forall j | 0 <= j < i :: members[j].0 != key
    requires i < |members| ==> members[i].0 == key
    ensures Find(members, key) == if i < |members| then members[i].1 else Null
  {
    if i > 0 { FindIsFirst(members[1..], key, i - 1); }
  }

  // ----- combining the statuses of several cases

  predicate Among(raws: seq<Json>, status: Status) {
    exists i :: 0 <= i < |raws| && Normalize(raws[i]) == Some(status)
  }

  function Combine(raws: seq<Json>): Option<Status> {
    if raws == [] || (exists i :: 0 <= i < |raws| && Normalize(raws[i]).None?) then None
    else if Among(raws, ExecutedFail) then Some(ExecutedFail)
    else if Among(raws, Blocked) then Some(Blocked)
    else if Among(raws, Unknown) then Some(Unknown)
    else if Among(raws, Unexecuted) then Some(Unexecuted)
    else Some(ExecutedPass)
  }

  function Severity(s: Status): nat {
    match s
    case ExecutedPass => 0
    case Unexecuted => 1
    case Unknown => 2
    case Blocked => 3
    case ExecutedFail => 4
  }

  /** The combination is the worst status present, and there is one exactly when every case has one. */
  lemma CombineIsWorst(raws: seq<Json>, s: Status)
    ensures Combine(raws) == Some(s) <==>
            && raws != [] && Among(raws, s)
            && forall i | 0 <= i < |raws| ::
                Normalize(raws[i]).Some? && Severity(Normalize(raws[i]).value) <= Severity(s)
  {
    if raws != [] && forall i | 0 <= i < |raws| :: Normalize(raws[i]).Some? {
      assert Among(raws, Normalize(raws[0]).value);
      WorstPresent(raws, s);
    }
  }

  lemma WorstPresent(raws: seq<Json>, s: Status)
    requires raws != [] && forall i | 0 <= i < |raws| :: Normalize(raws[i]).Some?
    ensures Combine(raws) == Some(s) <==>
            Among(raws, s) && forall t | Among(raws, t) :: Severity(t) <= Severity(s)
    ensures (forall t | Among(raws, t) :: Severity(t) <= Severity(s)) <==>
            (forall i | 0 <= i < |raws| :: Severity(Normalize(raws[i]).value) <= Severity(s))
  {
    assert Among(raws, Normalize(raws[0]).value);
    forall i | 0 <= i < |raws| ensures Among(raws, Normalize(raws[i]).value) {
    }
  }

  // ----- extracting the status

  /** A probe's standard output as the two parsers read it; None where they raise. */
  datatype Output = Output(single: Option<Json>, lines: Option<seq<Json>>)

  datatype Probe = InMemory | Hostile | Blocker | Durable

  /** Raised, or a status, which may be missing. */
  datatype Extracted = Raised | Gave(status: Option<Status>)

  function OfKind(values: seq<Json>, kind: string): (r: seq<Json>)
    ensures |r| <= |values|
    ensures forall v :: v in r <==> v in values && Get(v, "kind") == Text(kind)
  {
    if values == [] then []
    else (if Get(values[0], "kind") == Text(kind) then [values[0]] else []) + OfKind(values[1..], kind)
  }

  function Fields(values: seq<Json>, key: string): (r: seq<Json>)
    ensures |r| == |values| && forall i | 0 <= i < |values| :: r[i] == Get(values[i], key)
  {
    seq(|values|, i requires 0 <= i < |values| => Get(values[i], key))
  }

  function Extract(probe: Probe, out: Output): Extracted {
    if probe.InMemory? then
      if out.lines.None? then Raised
      else if OfKind(out.lines.value, "harness_error") != [] then Gave(Some(Blocked))
      else Gave(Combine(Fields(OfKind(out.lines.value, "case"), "status")))
    else if out.single.None? then Raised
    else Gave(Normalize(Get(out.single.value, "status")))
  }

  // ----- validating the output

  /** str() of a JSON value. */
  type Show = Json -> string

  predicate AuthorityClosed(d: Json) {
    && Get(d, "qualification") == Bool(false)
    && Get(d, "selection_effect") == Text("NONE") && Get(d, "authority_effect") == Text("NONE")
  }

  predicate Identity(d: Json, seed: string) {
    && Get(d, "candidate_id") == Text("HB-DEP-RAFT-OPENRAFT") && Get(d, "version") == Text("0.10.0-alpha.33")
    && Get(d, "seed") == Text(seed) && AuthorityClosed(d)
  }

  const INMEMORY_CASES := {
    "raft-deterministic-apply-and-restart", "raft-committed-snapshot-conflict-rejected",
    "raft-joint-membership-single-writer", "raft-process-pause-plus-partition",
    "raft-quorum-loss-fail-closed", "raft-incomplete-run-replay-diagnostics"}

  const DURABLE_CASES := {
    "durable-three-node-fsync-and-replication", "durable-full-cluster-restart-and-read-index",
    "durable-post-restart-write-survives-second-restart", "durable-snapshot-state-atomic-generation-reopen",
    "durable-log-corruption-fails-closed", "durable-state-corruption-fails-closed",
    "durable-isolated-writer-does-not-advance-commit"}

  const COMPONENTS := {"os_suspend", "durable_faults", "clock_faults"}

  const SCOPE_FLAGS := [
    "raft_log_storage_implemented", "raft_state_machine_implemented", "state_machine_persisted_before_responder",
    "snapshot_state_atomic_bundle_publish", "state_publish_after_durable_write", "full_cluster_disk_restart",
    "read_index_after_restart", "corruption_rejected"]

  predicate AllPass(cases: seq<Json>) {
    forall i | 0 <= i < |cases| :: cases[i].Object? && Get(cases[i], "status") == Text("PASS")
  }

  function CaseIds(show: Show, cases: seq<Json>): set<string> {
    set i | 0 <= i < |cases| && cases[i].Object? :: show(Get(cases[i], "case_id"))
  }

  predicate KindAllowed(d: Json) {
    var kind := Get(d, "kind");
    kind == Text("meta") || kind == Text("case") || kind == Text("harness_error")
  }

  function ValidateInMemory(show: Show, values: seq<Json>, seed: string): Option<Status> {
    var meta, cases := OfKind(values, "meta"), OfKind(values, "case");
    if && (forall i | 0 <= i < |values| :: values[i].Object? && KindAllowed(values[i]))
       && |meta| == 1 && OfKind(values, "harness_error") == [] && Identity(meta[0], seed)
       && Get(meta[0], "durability_class") == Text("TEST_ONLY_IN_MEMORY_NO_PRODUCTION_CLAIM")
       && |cases| == 6 && CaseIds(show, cases) == INMEMORY_CASES && AllPass(cases)
    then Some(ExecutedPass) else None
  }

  predicate HostileShape(d: Json) {
    && Get(d, "schema") == Text("heptabao.h02-openraft-hostile-snapshot-result.v1")
    && Get(d, "phase_reached") == Bool(true) && Get(d, "outcome") == Text("REJECTED_OR_ABORTED_AFTER_INJECTION")
  }

  predicate BlockerShape(d: Json) {
    && Get(d, "schema") == Text("heptabao.h02-blocker-closure-result.v1")
    && var components := Get(d, "components");
       && components.Object?
       && (set i | 0 <= i < |components.members| :: components.members[i].0) == COMPONENTS
       && (forall i | 0 <= i < |components.members| ::
             && components.members[i].1.Object?
             && Normalize(Get(components.members[i].1, "status")) == Some(ExecutedPass)
             && AuthorityClosed(components.members[i].1))
  }

  predicate DurableShape(show: Show, d: Json) {
    && Get(d, "schema") == Text("heptabao.h02-openraft-durable-store-result.v1")
    && var cases, scope := Get(d, "cases"), Get(d, "scope");
       && cases.List? && |cases.items| == 7 && CaseIds(show, cases.items) == DURABLE_CASES && AllPass(cases.items)
       && scope.Object? && (forall i | 0 <= i < |SCOPE_FLAGS| :: Get(scope, SCOPE_FLAGS[i]) == Bool(true))
       && Get(scope, "real_openraft_nodes") == Number("3")
       && Get(scope, "kernel_power_loss") == Bool(false) && Get(scope, "production_selected") == Bool(false)
  }

  /** The status a validator returns, or None when it raises. */
  function Validate(probe: Probe, show: Show, out: Output, seed: string): Option<Status> {
    if probe.InMemory? then
      if out.lines.None? then None else ValidateInMemory(show, out.lines.value, seed)
    else if out.single.None? then None
    else
      var d := out.single.value;
      var status := Normalize(Get(d, "status"));
      var shaped :=
        match probe
        case Hostile => HostileShape(d)
        case Blocker => BlockerShape(d)
        case _ => DurableShape(show, d);
      if shaped && Identity(d, seed) && status == Some(ExecutedPass) then status else None
  }

  /** A validator only ever returns a pass, and the extractor then reads the same from that output. */
  lemma ExtractorAgrees(probe: Probe, show: Show, out: Output, seed: string)
    requires Validate(probe, show, out, seed).Some?
    ensures Validate(probe, show, out, seed) == Some(ExecutedPass)
    ensures Extract(probe, out) == Gave(Some(ExecutedPass))
  {
    if probe.InMemory? {
      var cases := OfKind(out.lines.value, "case");
      var raws := Fields(cases, "status");
      forall i | 0 <= i < |raws| ensures Normalize(raws[i]) == Some(ExecutedPass) {
        assert raws[i] == Get(cases[i], "status");
      }
      assert Normalize(raws[0]) == Some(ExecutedPass);
      CombineIsWorst(raws, ExecutedPass);
    }
  }

  // ----- what a validated output says

  /** Every one of these identifiers is the case_id of exactly one case, and that case passed. */
  ghost predicate EachPassedOnce(show: Show, cases: seq<Json>, ids: set<string>) {
    && (forall i | 0 <= i < |cases| ::
          cases[i].Object? && Get(cases[i], "status") == Text("PASS") && show(Get(cases[i], "case_id")) in ids)
    && (forall i, j | 0 <= i < j < |cases| :: show(Get(cases[i], "case_id")) != show(Get(cases[j], "case_id")))
    && (forall id | id in ids :: exists i :: 0 <= i < |cases| && show(Get(cases[i], "case_id")) == id)
  }

  lemma CasesPassOnce(show: Show, cases: seq<Json>, ids: set<string>)
    requires AllPass(cases) && CaseIds(show, cases) == ids && |cases| <= |ids|
    ensures EachPassedOnce(show, cases, ids)
  {
    var names := seq(|cases|, i requires 0 <= i < |cases| => show(Get(cases[i], "case_id")));
    forall i | 0 <= i < |cases| ensures names[i] in ids {
      assert cases[i].Object?;
    }
    forall id | id in ids ensures id in names {
      var i :| 0 <= i < |cases| && cases[i].Object? && show(Get(cases[i], "case_id")) == id;
      assert names[i] == id;
    }
    assert Elements(names) == ids;
    CardDistinct(names);
    forall i, j | 0 <= i < j < |cases|
      ensures show(Get(cases[i], "case_id")) != show(Get(cases[j], "case_id"))
    {
      assert names[i] != names[j];
    }
  }

  lemma CaseCounts()
    ensures |INMEMORY_CASES| == 6 && |DURABLE_CASES| == 7
  {
  }

  /** Lines that validate have one head, about this seed and without authority, no error, and the six
      cases, each once and each passed. */
  lemma ValidatedLines(show: Show, out: Output, seed: string)
    requires Validate(InMemory, show, out, seed).Some?
    ensures out.lines.Some? && OfKind(out.lines.value, "harness_error") == []
    ensures EachPassedOnce(show, OfKind(out.lines.value, "case"), INMEMORY_CASES)
    ensures exists meta :: OfKind(out.lines.value, "meta") == [meta] && Identity(meta, seed)
  {
    CaseCounts();
    CasesPassOnce(show, OfKind(out.lines.value, "case"), INMEMORY_CASES);
    var meta := OfKind(out.lines.value, "meta");
    assert meta == [meta[0]];
  }

  /** A document that validates is about this seed, claims no authority and says that it passed; the one
      of the durable store has the seven cases, each once and each passed. */
  lemma ValidatedDocument(probe: Probe, show: Show, out: Output, seed: string)
    requires !probe.InMemory? && Validate(probe, show, out, seed).Some?
    ensures out.single.Some? && Identity(out.single.value, seed)
    ensures var status := Get(out.single.value, "status");
            status == Text("PASS") || status == Text("EXECUTED_PASS")
    ensures probe.Durable? ==>
            && Get(out.single.value, "cases").List?
            && EachPassedOnce(show, Get(out.single.value, "cases").items, DURABLE_CASES)
  {
    NormalizeReads(Get(out.single.value, "status"), ExecutedPass);
    if probe.Durable? { DurableCases(show, out.single.value); }
  }

  lemma DurableCases(show: Show, d: Json)
    requires DurableShape(show, d)
    ensures EachPassedOnce(show, Get(d, "cases").items, DURABLE_CASES)
  {
    CaseCounts();
    CasesPassOnce(show, Get(d, "cases").items, DURABLE_CASES);
  }

  // ----- the conclusion

  datatype Exit = Unavailable | NotAnInteger | Code(code: int)

  datatype Conclusion = Passed | Failed | WasBlocked | WasUnknown | WasUnexecuted

  datatype Fault = NotStarted | ExtractionFailed | Disagreement | ValidationFailed | TimedOut | NoExitCode
      | ExitNotInteger | ExitNonZero

  /** What is concluded from a run, stated without the list of errors. */
  function Conclude(started: bool, status: Option<Status>, valid: bool, timedOut: bool, exit: Exit): Conclusion {
    if !started then WasUnexecuted
    else if valid && !timedOut && exit == Code(0) then Passed
    else if timedOut || status == Some(Blocked) then WasBlocked
    else if status == Some(Unexecuted) then WasUnexecuted
    else if status == Some(Unknown) then WasUnknown
    else Failed
  }

  /** The run of a probe judged: a pass is a valid output, in time, from a process that exited with 0;
      anything else is explained by an error; the two readings of the status never disagree. */
  method JudgeRun(probe: Probe, show: Show, out: Output, seed: string, exit: Exit,
                  processStarted: bool, timedOut: bool, spawnFailed: bool)
      returns (conclusion: Conclusion, status: Option<Status>, errors: seq<Fault>)
    ensures var started := processStarted && !spawnFailed;
            var valid := Validate(probe, show, out, seed).Some?;
            && conclusion == Conclude(started, status, valid, timedOut, exit)
            && status == (if started && Extract(probe, out).Gave? then Extract(probe, out).status else None)
    ensures conclusion == Passed <==> errors == []
    ensures conclusion == Passed ==> status == Some(ExecutedPass)
    ensures Disagreement !in errors
  {
    if spawnFailed || !processStarted {
      return WasUnexecuted, None, [NotStarted];
    }
    errors, status := [], None;
    var extracted := Extract(probe, out);
    if extracted.Raised? {
      errors := errors + [ExtractionFailed];
    } else {
      status := extracted.status;
    }
    var validated := Validate(probe, show, out, seed);
    if validated.Some? {
      ExtractorAgrees(probe, show, out, seed);
    }
    errors := errors +
      (if validated.None? then [ValidationFailed]
       else if status.Some? && validated != status then [Disagreement] else []);
    status := if validated.Some? && status.None? then validated else status;
    errors := errors + (if timedOut then [TimedOut] else []);
    match exit {
      case Unavailable => errors := errors + [NoExitCode];
      case NotAnInteger => errors := errors + [ExitNotInteger];
      case Code(code) => errors := errors + (if code != 0 then [ExitNonZero] else []);
    }
    if errors == [] && status == Some(ExecutedPass) && exit == Code(0) {
      conclusion := Passed;
    } else if timedOut || status == Some(Blocked) {
      conclusion := WasBlocked;
    } else if status == Some(Unexecuted) {
      conclusion := WasUnexecuted;
    } else if status == Some(Unknown) {
      conclusion := WasUnknown;
    } else {
      conclusion := Failed;
    }
  }
}
