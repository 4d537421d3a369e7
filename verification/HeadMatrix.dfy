/** The twenty-four cells: four probes, two toolchains, three seeds. */
module HeadMatrix {
  import opened Sequences
  import opened MatrixCommand
  import opened MatrixSummary

  const KINDS := ["inmemory", "hostile", "blocker", "durable"]
  const TOOLCHAINS := ["1.88.0", "1.98.0"]
  const SEEDS := ["0x5eed20260828cafe", "0x8badf00d12345678", "0xd15ea5e5cafef00d"]

  const PROBES := map[
    "inmemory" := Probe("heptabao-h02-openraft-inmemory-cluster", []),
    "hostile" := Probe("heptabao-h02-openraft-fault-lab", ["--mode", "hostile-snapshot-parent"]),
    "blocker" := Probe("heptabao-h02-openraft-blocker-closure-lab", ["--mode", "all"]),
    "durable" := Probe("heptabao-h02-openraft-durable-store-lab", [])]

  const PLAN := Plan(KINDS, TOOLCHAINS, SEEDS, PROBES)

  lemma PlanSeparable()
    ensures Separable(PLAN)
  {
  }

  lemma AxesDistinct()
    ensures Distinct(KINDS) && Distinct(TOOLCHAINS) && Distinct(SEEDS)
  {
    assert KINDS[0][0] == 'i' && KINDS[1][0] == 'h' && KINDS[2][0] == 'b' && KINDS[3][0] == 'd';
    assert TOOLCHAINS[0][2] == '8' && TOOLCHAINS[1][2] == '9';
    assert SEEDS[0][2] == '5' && SEEDS[1][2] == '8' && SEEDS[2][2] == 'd';
  }

  function NthCell(n: nat): Cell
    requires n < 24
  {
    Cell(KINDS[n % 4], TOOLCHAINS[n / 4 % 2], SEEDS[n / 8])
  }

  lemma NthCellInjective(m: nat, n: nat)
    requires m < n < 24
    ensures NthCell(m) != NthCell(n)
  {
    AxesDistinct();
    assert m % 4 != n % 4 || m / 4 % 2 != n / 4 % 2 || m / 8 != n / 8;
  }

  lemma CellIndex(c: Cell) returns (n: nat)
    requires InPlan(PLAN, c)
    ensures n < 24 && NthCell(n) == c
  {
    var i :| 0 <= i < 4 && KINDS[i] == c.kind;
    var j :| 0 <= j < 2 && TOOLCHAINS[j] == c.toolchain;
    var k :| 0 <= k < 3 && SEEDS[k] == c.seed;
    n := i + 4 * j + 8 * k;
    assert n % 4 == i && n / 4 % 2 == j && n / 8 == k;
  }

  function NthId(n: nat): string
    requires n < 24
  {
    EntryId(NthCell(n))
  }

  lemma NthIdInjective(m: nat, n: nat)
    requires m < n < 24
    ensures NthId(m) != NthId(n)
  {
    PlanSeparable();
    NthCellInjective(m, n);
    if NthId(m) == NthId(n) {
      EntryIdInjective(PLAN, NthCell(m), NthCell(n));
    }
  }

  /** The matrix has twenty-four different identifiers. */
  lemma TwentyFour()
    ensures |RequiredIds(PLAN)| == 24
  {
    var ids := seq(24, n requires 0 <= n < 24 => NthId(n));
    forall m, n | 0 <= m < n < 24 ensures ids[m] != ids[n] {
      NthIdInjective(m, n);
    }
    DistinctCard(ids);
    IdsAreRequired(ids);
    assert Elements(ids) == RequiredIds(PLAN);
  }

  lemma IdsAreRequired(ids: seq<string>)
    requires |ids| == 24 && forall n | 0 <= n < 24 :: ids[n] == NthId(n)
    ensures forall id :: id in Elements(ids) <==> id in RequiredIds(PLAN)
  {
    forall id ensures id in Elements(ids) <==> id in RequiredIds(PLAN) {
      if id in Elements(ids) {
        var n :| 0 <= n < 24 && ids[n] == id;
        CellIsRequired(PLAN, NthCell(n));
      }
      if id in RequiredIds(PLAN) {
        var c := RequiredId(PLAN, id);
        var n := CellIndex(c);
        assert ids[n] == id;
      }
    }
  }
}
