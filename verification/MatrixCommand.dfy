/** The matrix cells, their entry identifiers, and the command line of a cell. */
module MatrixCommand {
  import opened Sequences

  datatype Cell = Cell(kind: string, toolchain: string, seed: string)

  datatype Probe = Probe(binary: string, arguments: seq<string>)

  /** The axes of the matrix, and the probe of each kind. */
  datatype Plan = Plan(kinds: seq<string>, toolchains: seq<string>, seeds: seq<string>, probes: map<string, Probe>)

  predicate Dashless(s: string) {
    '-' !in s
  }

  /** The identifiers keep the axes apart: no dash in the first two, a common prefix on the seeds. */
  predicate Separable(plan: Plan) {
    && (forall i | 0 <= i < |plan.kinds| :: Dashless(plan.kinds[i]) && plan.kinds[i] in plan.probes)
    && (forall i | 0 <= i < |plan.toolchains| :: Dashless(plan.toolchains[i]))
    && (forall i | 0 <= i < |plan.seeds| :: |plan.seeds[i]| >= 2 && plan.seeds[i][..2] == "0x")
  }

  predicate InPlan(plan: Plan, c: Cell) {
    c.kind in plan.kinds && c.toolchain in plan.toolchains && c.seed in plan.seeds
  }

  /** seed.removeprefix("0x") */
  function Digits(seed: string): string {
    if |seed| >= 2 && seed[..2] == "0x" then seed[2..] else seed
  }

  function EntryId(c: Cell): string {
    c.kind + "-" + (c.toolchain + "-" + Digits(c.seed))
  }

  // ----- reading an identifier back

  /** The text before and after the first dash. */
  function Cut(s: string): Option<(string, string)> {
    if s == "" then None
    else if s[0] == '-' then Some(("", s[1..]))
    else
      var rest := Cut(s[1..]);
      if rest.None? then None else Some(([s[0]] + rest.value.0, rest.value.1))
  }

  lemma {:induction false} CutOf(a: string, b: string)
    requires Dashless(a)
    ensures Cut(a + "-" + b) == Some((a, b))
  {
    var s := a + "-" + b;
    if a == "" {
      assert s[1..] == b;
    } else {
      CutOf(a[1..], b);
      assert s[1..] == a[1..] + "-" + b;
      assert a == [a[0]] + a[1..];
    }
  }

  lemma {:induction false} CutBack(s: string)
    requires Cut(s).Some?
    ensures Dashless(Cut(s).value.0) && s == Cut(s).value.0 + "-" + Cut(s).value.1
  {
    if s[0] == '-' {
      assert s == "" + "-" + s[1..];
    } else {
      CutBack(s[1..]);
      var rest := Cut(s[1..]).value;
      assert s == [s[0]] + (rest.0 + "-" + rest.1);
    }
  }

  function ParseId(plan: Plan, id: string): (r: Option<Cell>)
    ensures r.Some? ==> InPlan(plan, r.value)
  {
    var first := Cut(id);
    if first.None? then None else
    var second := Cut(first.value.1);
    if second.None? then None else
    var c := Cell(first.value.0, second.value.0, "0x" + second.value.1);
    if InPlan(plan, c) then Some(c) else None
  }

  /** Reading an identifier undoes writing it, for every cell of the plan. */
  lemma ParseOfEntry(plan: Plan, c: Cell)
    requires Separable(plan) && InPlan(plan, c)
    ensures ParseId(plan, EntryId(c)) == Some(c)
  {
    assert Dashless(c.kind) && Dashless(c.toolchain);
    CutOf(c.kind, c.toolchain + "-" + Digits(c.seed));
    CutOf(c.toolchain, Digits(c.seed));
    assert |c.seed| >= 2 && c.seed[..2] == "0x";
    assert c.seed == "0x" + c.seed[2..];
  }

  /** Only the identifier of a cell reads as that cell. */
  lemma EntryOfParse(plan: Plan, id: string)
    requires ParseId(plan, id).Some?
    ensures EntryId(ParseId(plan, id).value) == id
  {
    CutBack(id);
    var rest := Cut(id).value.1;
    CutBack(rest);
    var digits := Cut(rest).value.1;
    assert ("0x" + digits)[2..] == digits && ("0x" + digits)[..2] == "0x";
  }

  lemma EntryIdInjective(plan: Plan, c: Cell, d: Cell)
    requires Separable(plan) && InPlan(plan, c) && InPlan(plan, d) && EntryId(c) == EntryId(d)
    ensures c == d
  {
    ParseOfEntry(plan, c);
    ParseOfEntry(plan, d);
  }

  // ----- the command line

  const QUIET := "--quiet"
  const LOCKED := "--locked"
  const MANIFEST := "--manifest-path"
  const BIN := "--bin"

  lemma FlagsDiffer()
    ensures QUIET != LOCKED && MANIFEST != BIN
  {
    assert |QUIET| == 7 && |LOCKED| == 8 && |MANIFEST| == 15 && |BIN| == 5;
  }

  /** A command with or without the quiet flag and the manifest argument. */
  function Command(probe: Probe, c: Cell, quiet: bool, manifest: Option<string>): seq<string> {
    ["cargo", "+" + c.toolchain, "run"] + (if quiet then [QUIET] else []) + [LOCKED]
    + (if manifest.Some? then [MANIFEST, manifest.value] else [])
    + Suffix(probe, c)
  }

  function Suffix(probe: Probe, c: Cell): seq<string> {
    [BIN, probe.binary, "--"] + probe.arguments + ["--seed", c.seed]
  }

  /** The argument list a run of the cell uses. */
  function CanonicalCommand(probe: Probe, c: Cell, manifest: string): seq<string> {
    Command(probe, c, true, Some(manifest))
  }

  /** Something of the command's prefix is followed by this at `cursor`. */
  predicate From(command: seq<string>, cursor: nat, rest: seq<string>) {
    cursor <= |command| && command[cursor..] == rest
  }

  predicate FlagAt(command: seq<string>, cursor: nat, flag: string) {
    cursor < |command| && command[cursor] == flag
  }

  /** The manifest paths that are accepted are given by `canonical`. */
  ghost predicate Accepted(canonical: string -> bool, probe: Probe, c: Cell, runner: bool, command: seq<string>) {
    exists quiet, manifest ::
      && command == Command(probe, c, quiet, manifest)
      && (manifest.Some? ==> canonical(manifest.value))
      && (runner ==> quiet && manifest.Some?)
  }

  predicate AllNonEmpty(command: seq<string>) {
    forall i | 0 <= i < |command| :: command[i] != ""
  }

  /** The tail after the flags: the binary, the separator, and the probe's own arguments. */
  method CheckTail(probe: Probe, c: Cell, command: seq<string>, start: nat) returns (ok: bool)
    requires start <= |command|
    ensures ok == From(command, start, Suffix(probe, c))
  {
    var cursor := start;
    if !(cursor + 2 <= |command| && command[cursor..cursor + 2] == [BIN, probe.binary]) {
      return false;
    }
    cursor := cursor + 2;
    if !FlagAt(command, cursor, "--") {
      return false;
    }
    cursor := cursor + 1;
    ok := command[cursor..] == probe.arguments + ["--seed", c.seed];
    assert command[start..] == [BIN, probe.binary, "--"] + command[cursor..];
  }

  /** The place of the first flag that may be missing, and of the second. */
  const FIRST := 3

  function Second(quiet: bool): nat {
    if quiet then 5 else 4
  }

  /** The flags a command was built with can be read off it. */
  lemma FlagsRead(probe: Probe, c: Cell, quiet: bool, manifest: Option<string>)
    ensures var command := Command(probe, c, quiet, manifest);
            && FlagAt(command, FIRST, QUIET) == quiet
            && FlagAt(command, Second(quiet), MANIFEST) == manifest.Some?
            && (manifest.Some? ==> Second(quiet) + 1 < |command| && command[Second(quiet) + 1] == manifest.value)
  {
    FlagsDiffer();
    var command := Command(probe, c, quiet, manifest);
    assert command[FIRST] == if quiet then QUIET else LOCKED;
    assert command[Second(quiet)] == if manifest.Some? then MANIFEST else BIN;
  }

  lemma FlagsSplit(probe: Probe, c: Cell, quiet: bool, manifest: Option<string>, command: seq<string>)
    ensures command == Command(probe, c, quiet, manifest) <==>
            && |command| >= Second(quiet) && command[..3] == ["cargo", "+" + c.toolchain, "run"]
            && (quiet ==> command[3] == QUIET) && command[Second(quiet) - 1] == LOCKED
            && (if manifest.None? then From(command, Second(quiet), Suffix(probe, c))
                else |command| >= Second(quiet) + 2 && command[Second(quiet)] == MANIFEST
                     && command[Second(quiet) + 1] == manifest.value
                     && From(command, Second(quiet) + 2, Suffix(probe, c)))
  {
    var k := Second(quiet);
    var head := ["cargo", "+" + c.toolchain, "run"] + (if quiet then [QUIET] else []) + [LOCKED];
    var middle := if manifest.Some? then [MANIFEST, manifest.value] else [];
    assert Command(probe, c, quiet, manifest) == head + (middle + Suffix(probe, c));
    assert |head| == k && |head + middle| == k + |middle|;
    Joined(command, head, middle + Suffix(probe, c));
    if |command| >= k {
      Joined(command[k..], middle, Suffix(probe, c));
      HeadIs(c, quiet, command);
    }
  }

  lemma Joined(s: seq<string>, a: seq<string>, b: seq<string>)
    ensures s == a + b <==> |s| >= |a| && s[..|a|] == a && s[|a|..] == b
  {
    if |s| >= |a| {
      assert s == s[..|a|] + s[|a|..];
    }
  }

  lemma HeadIs(c: Cell, quiet: bool, command: seq<string>)
    requires |command| >= Second(quiet)
    ensures var start := ["cargo", "+" + c.toolchain, "run"];
            command[..Second(quiet)] == start + (if quiet then [QUIET] else []) + [LOCKED] <==>
            && command[..3] == ["cargo", "+" + c.toolchain, "run"]
            && (quiet ==> command[3] == QUIET) && command[Second(quiet) - 1] == LOCKED
  {
    var k := Second(quiet);
    var start := ["cargo", "+" + c.toolchain, "run"];
    var rest := (if quiet then [QUIET] else []) + [LOCKED];
    Joined(command[..k], start, rest);
    assert start + rest == start + (if quiet then [QUIET] else []) + [LOCKED];
    assert command[..k][..3] == command[..3];
    assert command[..k][3..] == if quiet then [command[3], command[4]] else [command[3]];
  }

  lemma AcceptedMeans(canonical: string -> bool, probe: Probe, c: Cell, runner: bool, command: seq<string>,
                      quiet: bool, manifest: Option<string>)
    requires quiet == FlagAt(command, FIRST, QUIET)
    requires manifest.Some? <==> FlagAt(command, Second(quiet), MANIFEST) && Second(quiet) + 1 < |command|
    requires manifest.Some? ==> manifest.value == command[Second(quiet) + 1]
    ensures Accepted(canonical, probe, c, runner, command) <==>
            && command == Command(probe, c, quiet, manifest)
            && (manifest.Some? ==> canonical(manifest.value))
            && (runner ==> quiet && manifest.Some?)
  {
    if Accepted(canonical, probe, c, runner, command) {
      var q, m :| command == Command(probe, c, q, m) && (m.Some? ==> canonical(m.value)) && (runner ==> q && m.Some?);
      FlagsRead(probe, c, q, m);
    }
  }

  /** The cursor that walks over the arguments accepts exactly the commands a runner can have built:
      with a canonical manifest, and with both flags when they are insisted on. */
  method CheckCommand(canonical: string -> bool, probe: Probe, c: Cell, runner: bool, command: seq<string>)
      returns (ok: bool)
    ensures ok == (AllNonEmpty(command) && Accepted(canonical, probe, c, runner, command))
  {
    var quiet := FlagAt(command, FIRST, QUIET);
    var k := Second(quiet);
    var hasManifest := FlagAt(command, k, MANIFEST);
    ghost var manifest := if hasManifest && k + 1 < |command| then Some(command[k + 1]) else None;
    AcceptedMeans(canonical, probe, c, runner, command, quiet, manifest);
    FlagsSplit(probe, c, quiet, manifest, command);
    if command == [] || !AllNonEmpty(command) || |command| < 3 || command[..3] != ["cargo", "+" + c.toolchain, "run"] {
      return false;
    }
    var cursor := 3;
    if quiet {
      cursor := cursor + 1;
    }
    if (runner && !quiet) || !FlagAt(command, cursor, LOCKED) {
      return false;
    }
    cursor := cursor + 1;
    if hasManifest {
      if !(cursor + 1 < |command|) {
        FlagsDiffer();
        return false;
      }
      if !canonical(command[cursor + 1]) {
        return false;
      }
      cursor := cursor + 2;
    }
    if runner && !hasManifest {
      return false;
    }
    ok := CheckTail(probe, c, command, cursor);
  }

  /** What the runner builds is accepted, and under the runner's flags nothing else is. */
  lemma RunnerCommand(canonical: string -> bool, probe: Probe, c: Cell, command: seq<string>)
    ensures Accepted(canonical, probe, c, true, command) <==>
            exists m :: canonical(m) && command == CanonicalCommand(probe, c, m)
  {
    if Accepted(canonical, probe, c, true, command) {
      var q, m :| command == Command(probe, c, q, m) && (m.Some? ==> canonical(m.value)) && q && m.Some?;
      assert canonical(m.value) && command == CanonicalCommand(probe, c, m.value);
    }
    if m :| canonical(m) && command == CanonicalCommand(probe, c, m) {
      assert command == Command(probe, c, true, Some(m));
    }
  }

  /** A command names its cell: no two cells of a kind share one. */
  lemma CommandNamesCell(probe: Probe, c: Cell, d: Cell, q: bool, q': bool, m: Option<string>, m': Option<string>)
    requires Command(probe, c, q, m) == Command(probe, d, q', m')
    ensures c.toolchain == d.toolchain && c.seed == d.seed && q == q' && m == m'
  {
    var command := Command(probe, c, q, m);
    FlagsRead(probe, c, q, m);
    FlagsRead(probe, d, q', m');
    assert command[1] == "+" + c.toolchain && command[1] == "+" + d.toolchain;
    assert ("+" + c.toolchain)[1..] == c.toolchain && ("+" + d.toolchain)[1..] == d.toolchain;
    assert command[|command| - 1] == c.seed && command[|command| - 1] == d.seed;
  }
}
