/** The summary of a matrix run: its counts, and when it is a pass. */
module MatrixSummary {
  import opened Sequences
  import opened MatrixCommand

  /** A value of an entry: a string, or anything else with the text str() gives it. */
  datatype Value = Str(s: string) | Other(shown: string)

  function Shown(v: Value): string {
    if v.Str? then v.s else v.shown
  }

  /** An element of the list of entries; command is None when it is not a list of strings. */
  datatype Entry =
    | NotAnObject
    | Entry(id: Value, kind: Value, toolchain: Value, seed: Value, binary: Value,
            command: Option<seq<string>>, commandDigest: Value, conclusion: Value)

  /** How commands are digested and which manifest paths are canonical. */
  datatype Checks = Checks(digest: seq<string> -> string, canonical: string -> bool)

  // ----- one entry

  /** The cell an entry claims, if its identifier is that of a cell. */
  function CellOf(plan: Plan, e: Entry): (r: Option<Cell>)
    ensures r.Some? ==> InPlan(plan, r.value)
  {
    if e.Entry? && e.id.Str? then ParseId(plan, e.id.s) else None
  }

  /** Identifier, labels, binary, command and digest of the entry all name one cell. */
  ghost predicate TupleValid(plan: Plan, checks: Checks, e: Entry)
    requires Separable(plan)
  {
    && CellOf(plan, e).Some?
    && var c := CellOf(plan, e).value;
       && e.kind == Str(c.kind) && e.toolchain == Str(c.toolchain) && e.seed == Str(c.seed)
       && e.binary == Str(plan.probes[c.kind].binary) && e.command.Some?
       && AllNonEmpty(e.command.value) && Accepted(checks.canonical, plan.probes[c.kind], c, true, e.command.value)
       && e.commandDigest == Str(checks.digest(e.command.value))
  }

  method CheckTuple(plan: Plan, checks: Checks, e: Entry) returns (ok: bool)
    requires Separable(plan)
    ensures ok == TupleValid(plan, checks, e)
  {
    var cell := CellOf(plan, e);
    if cell.None? {
      return false;
    }
    var c := cell.value;
    if e.kind != Str(c.kind) || e.toolchain != Str(c.toolchain) || e.seed != Str(c.seed)
       || e.binary != Str(plan.probes[c.kind].binary) || e.command.None? {
      return false;
    }
    ok := CheckCommand(checks.canonical, plan.probes[c.kind], c, true, e.command.value);
    ok := ok && e.commandDigest == Str(checks.digest(e.command.value));
  }

  // ----- the counts

  datatype Counts = Counts(pass: nat, fail: nat, blocked: nat, unknown: nat, unexecuted: nat)

  function Concluded(e: Entry): Value {
    if e.Entry? then e.conclusion else Other("None")
  }

  predicate Listed(v: Value) {
    v == Str("PASS") || v == Str("FAIL") || v == Str("BLOCKED") || v == Str("UNEXECUTED")
  }

  function Tally(entries: seq<Entry>, v: Value): nat {
    if entries == [] then 0 else (if Concluded(entries[0]) == v then 1 else 0) + Tally(entries[1..], v)
  }

  function TallyRest(entries: seq<Entry>): nat {
    if entries == [] then 0 else (if Listed(Concluded(entries[0])) then 0 else 1) + TallyRest(entries[1..])
  }

  function CountsOf(entries: seq<Entry>): Counts {
    Counts(Tally(entries, Str("PASS")), Tally(entries, Str("FAIL")), Tally(entries, Str("BLOCKED")),
      TallyRest(entries), Tally(entries, Str("UNEXECUTED")))
  }

  function Plus(c: Counts, v: Value): Counts {
    if v == Str("PASS") then c.(pass := c.pass + 1)
    else if v == Str("FAIL") then c.(fail := c.fail + 1)
    else if v == Str("BLOCKED") then c.(blocked := c.blocked + 1)
    else if v == Str("UNEXECUTED") then c.(unexecuted := c.unexecuted + 1)
    else c.(unknown := c.unknown + 1)
  }

  lemma NamesDiffer()
    ensures "PASS"[0] == 'P' && "FAIL"[0] == 'F' && "BLOCKED"[0] == 'B' && "UNEXECUTED"[0] == 'U'
  {
  }

  lemma {:induction false} TallySnoc(entries: seq<Entry>, e: Entry, v: Value)
    ensures Tally(entries + [e], v) == Tally(entries, v) + if Concluded(e) == v then 1 else 0
    ensures TallyRest(entries + [e]) == TallyRest(entries) + if Listed(Concluded(e)) then 0 else 1
  {
    if entries == [] {
      assert entries + [e] == [e];
    } else {
      TallySnoc(entries[1..], e, v);
      assert (entries + [e])[1..] == entries[1..] + [e];
    }
  }

  lemma CountsSnoc(entries: seq<Entry>, e: Entry)
    ensures CountsOf(entries + [e]) == Plus(CountsOf(entries), Concluded(e))
  {
    NamesDiffer();
    TallySnoc(entries, e, Str("PASS"));
    TallySnoc(entries, e, Str("FAIL"));
    TallySnoc(entries, e, Str("BLOCKED"));
    TallySnoc(entries, e, Str("UNEXECUTED"));
  }

  function Total(c: Counts): nat {
    c.pass + c.fail + c.blocked + c.unknown + c.unexecuted
  }

  /** Every entry is counted exactly once. */
  lemma {:induction false} CountsTotal(entries: seq<Entry>)
    ensures Total(CountsOf(entries)) == |entries|
  {
    if entries != [] {
      var n := |entries| - 1;
      CountsTotal(entries[..n]);
      CountsSnoc(entries[..n], entries[n]);
      assert entries == entries[..n] + [entries[n]];
    }
  }

  lemma {:induction false} AllCounted(entries: seq<Entry>)
    ensures Tally(entries, Str("PASS")) <= |entries|
    ensures Tally(entries, Str("PASS")) == |entries| <==>
        forall i | 0 <= i < |entries| :: Concluded(entries[i]) == Str("PASS")
  {
    if entries != [] {
      AllCounted(entries[1..]);
      assert forall i | 1 <= i < |entries| :: entries[i] == entries[1..][i - 1];
      if forall i | 0 <= i < |entries| :: Concluded(entries[i]) == Str("PASS") {
        assert forall i | 0 <= i < |entries[1..]| :: Concluded(entries[1..][i]) == Concluded(entries[i + 1]);
      }
    }
  }

  method SummarizeEntries(entries: seq<Entry>) returns (counts: Counts)
    ensures counts == CountsOf(entries) && Total(counts) == |entries|
  {
    counts := Counts(0, 0, 0, 0, 0);
    for i := 0 to |entries|
      invariant counts == CountsOf(entries[..i])
    {
      CountsSnoc(entries[..i], entries[i]);
      assert entries[..i + 1] == entries[..i] + [entries[i]];
      counts := Plus(counts, Concluded(entries[i]));
    }
    assert entries[..|entries|] == entries;
    CountsTotal(entries);
  }

  // ----- the summary

  function RequiredIds(plan: Plan): set<string> {
    set k, t, s | k in plan.kinds && t in plan.toolchains && s in plan.seeds :: EntryId(Cell(k, t, s))
  }

  function IdOf(e: Entry): string {
    if e.Entry? then Shown(e.id) else "<invalid-entry>"
  }

  function IdsOf(entries: seq<Entry>): (r: seq<string>)
    ensures |r| == |entries| && forall i | 0 <= i < |entries| :: r[i] == IdOf(entries[i])
  {
    seq(|entries|, i requires 0 <= i < |entries| => IdOf(entries[i]))
  }

  function Repeated(ids: seq<string>): set<string> {
    set id | id in ids && multiset(ids)[id] > 1
  }

  lemma {:induction false} CountsOnce(ids: seq<string>, i: nat, j: nat)
    requires i < j < |ids| && ids[i] == ids[j]
    ensures ids[i] in Repeated(ids)
  {
    assert ids == ids[..j] + ids[j..];
    assert ids[i] in ids[..j];
    assert ids[j..][0] == ids[i];
    assert ids[i] in ids[j..];
  }

  lemma {:induction false} DistinctOnce(ids: seq<string>, id: string)
    requires Distinct(ids)
    ensures multiset(ids)[id] <= 1
  {
    if ids != [] {
      var t := ids[1..];
      DistinctOnce(t, id);
      assert ids == [ids[0]] + t;
      assert ids[0] !in t;
      assert multiset(ids) == multiset{ids[0]} + multiset(t);
    }
  }

  lemma RepeatedNone(ids: seq<string>)
    ensures Repeated(ids) == {} <==> Distinct(ids)
  {
    if Repeated(ids) == {} {
      forall i, j | 0 <= i < j < |ids| ensures ids[i] != ids[j] {
        if ids[i] == ids[j] {
          CountsOnce(ids, i, j);
        }
      }
    }
    if Distinct(ids) {
      forall id | id in ids ensures multiset(ids)[id] <= 1 {
        DistinctOnce(ids, id);
      }
    }
  }

  ghost predicate Claimed(plan: Plan, entries: seq<Entry>, c: Cell) {
    exists i :: 0 <= i < |entries| && CellOf(plan, entries[i]) == Some(c)
  }

  /** Each entry has a cell of its own, and each cell of the plan has an entry. */
  ghost predicate OneToOne(plan: Plan, entries: seq<Entry>) {
    && (forall i | 0 <= i < |entries| :: CellOf(plan, entries[i]).Some?)
    && (forall i, j | 0 <= i < j < |entries| :: CellOf(plan, entries[i]) != CellOf(plan, entries[j]))
    && (forall c | InPlan(plan, c) :: Claimed(plan, entries, c))
  }

  ghost predicate AllValid(plan: Plan, checks: Checks, entries: seq<Entry>)
    requires Separable(plan)
  {
    forall i | 0 <= i < |entries| :: TupleValid(plan, checks, entries[i])
  }

  lemma RequiredId(plan: Plan, id: string) returns (c: Cell)
    requires id in RequiredIds(plan)
    ensures InPlan(plan, c) && EntryId(c) == id
  {
    var k, t, s :| k in plan.kinds && t in plan.toolchains && s in plan.seeds && EntryId(Cell(k, t, s)) == id;
    c := Cell(k, t, s);
  }

  lemma CellIsRequired(plan: Plan, c: Cell)
    requires InPlan(plan, c)
    ensures EntryId(c) in RequiredIds(plan)
  {
    assert c == Cell(c.kind, c.toolchain, c.seed);
  }

  lemma IdNamesCell(plan: Plan, e: Entry)
    requires CellOf(plan, e).Some?
    ensures IdOf(e) == EntryId(CellOf(plan, e).value)
  {
    EntryOfParse(plan, e.id.s);
  }

  /** When every entry names a cell, the identifiers are the required ones, each once, exactly when
      the entries and the cells are one to one. */
  lemma CoverIffOneToOne(plan: Plan, entries: seq<Entry>)
    requires Separable(plan) && forall i | 0 <= i < |entries| :: CellOf(plan, entries[i]).Some?
    ensures Distinct(IdsOf(entries)) && Elements(IdsOf(entries)) == RequiredIds(plan) <==> OneToOne(plan, entries)
  {
    if Distinct(IdsOf(entries)) && Elements(IdsOf(entries)) == RequiredIds(plan) {
      CoverGivesOneToOne(plan, entries);
    }
    if OneToOne(plan, entries) {
      OneToOneGivesCover(plan, entries);
    }
  }

  lemma CoverGivesOneToOne(plan: Plan, entries: seq<Entry>)
    requires Separable(plan) && forall i | 0 <= i < |entries| :: CellOf(plan, entries[i]).Some?
    requires Distinct(IdsOf(entries)) && Elements(IdsOf(entries)) == RequiredIds(plan)
    ensures OneToOne(plan, entries)
  {
    var ids := IdsOf(entries);
    forall i, j | 0 <= i < j < |entries| ensures CellOf(plan, entries[i]) != CellOf(plan, entries[j]) {
      assert ids[i] != ids[j];
      IdNamesCell(plan, entries[i]);
      IdNamesCell(plan, entries[j]);
    }
    forall c | InPlan(plan, c) ensures Claimed(plan, entries, c) {
      CellIsRequired(plan, c);
      assert EntryId(c) in Elements(ids);
      var i :| 0 <= i < |ids| && ids[i] == EntryId(c);
      IdNamesCell(plan, entries[i]);
      EntryIdInjective(plan, c, CellOf(plan, entries[i]).value);
    }
  }

  lemma OneToOneGivesCover(plan: Plan, entries: seq<Entry>)
    requires Separable(plan) && OneToOne(plan, entries)
    ensures Distinct(IdsOf(entries)) && Elements(IdsOf(entries)) == RequiredIds(plan)
  {
    var ids := IdsOf(entries);
    forall i, j | 0 <= i < j < |entries| ensures ids[i] != ids[j] {
      IdNamesCell(plan, entries[i]);
      IdNamesCell(plan, entries[j]);
      if ids[i] == ids[j] {
        EntryIdInjective(plan, CellOf(plan, entries[i]).value, CellOf(plan, entries[j]).value);
      }
    }
    forall id ensures id in Elements(ids) <==> id in RequiredIds(plan) {
      if id in Elements(ids) {
        var i :| 0 <= i < |ids| && ids[i] == id;
        IdNamesCell(plan, entries[i]);
        CellIsRequired(plan, CellOf(plan, entries[i]).value);
      }
      if id in RequiredIds(plan) {
        var c := RequiredId(plan, id);
        assert Claimed(plan, entries, c);
        var i :| 0 <= i < |entries| && CellOf(plan, entries[i]) == Some(c);
        IdNamesCell(plan, entries[i]);
        assert ids[i] == id;
      }
    }
  }

  lemma FullCounts(entries: seq<Entry>, n: nat)
    requires |entries| == n
    ensures CountsOf(entries) == Counts(n, 0, 0, 0, 0) <==>
        forall i | 0 <= i < n :: Concluded(entries[i]) == Str("PASS")
  {
    AllCounted(entries);
    CountsTotal(entries);
  }

  /** The indices of the entries that do not check. */
  method TupleErrors(plan: Plan, checks: Checks, entries: seq<Entry>) returns (errors: seq<nat>)
    requires Separable(plan)
    ensures errors == [] <==> AllValid(plan, checks, entries)
  {
    errors := [];
    for i := 0 to |entries|
      invariant errors == [] <==> AllValid(plan, checks, entries[..i])
    {
      var ok := CheckTuple(plan, checks, entries[i]);
      assert entries[..i + 1] == entries[..i] + [entries[i]];
      assert forall j | 0 <= j < i :: entries[..i + 1][j] == entries[..i][j];
      assert entries[..i + 1][i] == entries[i];
      if !ok {
        errors := errors + [i];
      }
    }
    assert entries[..|entries|] == entries;
  }

  datatype Summary = Summary(pass: bool, counts: Counts, missing: set<string>, unexpected: set<string>,
    duplicates: set<string>, tupleErrors: seq<nat>)

  /** A summary passes exactly when nothing else went wrong, every entry checks, every conclusion is
      PASS, and the entries are one to one with the cells of the matrix. */
  method BuildSummary(plan: Plan, checks: Checks, entries: seq<Entry>, otherErrors: seq<string>) returns (r: Summary)
    requires Separable(plan) && |RequiredIds(plan)| == 24
    ensures r.pass <==>
            && otherErrors == [] && AllValid(plan, checks, entries) && OneToOne(plan, entries)
            && (forall i | 0 <= i < |entries| :: Concluded(entries[i]) == Str("PASS"))
    ensures r.counts == CountsOf(entries) && Total(r.counts) == |entries|
  {
    var required := RequiredIds(plan);
    var tupleErrors := TupleErrors(plan, checks, entries);
    var ids := IdsOf(entries);
    var actual := set id | id in ids;
    var counts := SummarizeEntries(entries);
    var missing, unexpected, duplicates := required - actual, actual - required, Repeated(ids);
    var covered := |entries| == |required| && missing == {} && unexpected == {} && duplicates == {};
    RepeatedNone(ids);
    assert actual == Elements(ids);
    assert covered <==> Distinct(ids) && Elements(ids) == required by {
      Covered(ids, required);
    }
    if AllValid(plan, checks, entries) {
      CoverIffOneToOne(plan, entries);
    }
    if |entries| == 24 {
      FullCounts(entries, 24);
    }
    r := Summary(covered && otherErrors == [] && tupleErrors == [] && counts == Counts(24, 0, 0, 0, 0),
      counts, missing, unexpected, duplicates, tupleErrors);
  }

  lemma Covered(ids: seq<string>, required: set<string>)
    ensures |ids| == |required| && required - Elements(ids) == {} && Elements(ids) - required == {} && Distinct(ids)
            <==> Distinct(ids) && Elements(ids) == required
  {
    if Distinct(ids) {
      DistinctCard(ids);
    }
    if required - Elements(ids) == {} && Elements(ids) - required == {} {
      assert forall id | id in required :: id in Elements(ids);
      assert forall id | id in Elements(ids) :: id in required;
    }
  }
}
