/** The fourteen transport cases. */
module P0Cases {
  import opened Sequences
  import opened P0Evidence
  import opened P0Classification

  function Digit(n: nat): char
    requires n < 10
  {
    '0' + n as char
  }

  function Id(n: nat): string
    requires n < 100
  {
    "P0-TRANSPORT-0" + [Digit(n / 10), Digit(n % 10)]
  }

  function ClassOf(n: nat): Class {
    if n == 11 || n == 12 then CompiledSourceBound else if n == 14 then BestEffortSourceBound else RuntimeObserved
  }

  function Number(id: string): nat {
    if |id| == 16 && '0' <= id[14] <= '9' && '0' <= id[15] <= '9'
    then 10 * (id[14] - '0') as nat + (id[15] - '0') as nat else 0
  }

  lemma NumberId(n: nat)
    requires n < 100
    ensures Number(Id(n)) == n
  {
  }

  /** The canonical order. */
  function Order(): (r: seq<string>)
    ensures |r| == 14 && forall i | 0 <= i < 14 :: r[i] == Id(i + 1)
  {
    seq(14, i requires 0 <= i < 14 => Id(i + 1))
  }

  function Cases(): Catalog {
    Catalog(Order(), map id | id in Order() :: ClassOf(Number(id)))
  }

  /** The identifiers are in the order sorted() gives: each is smaller at the first difference. */
  lemma Ascending(i: nat, j: nat)
    requires i < j < 14
    ensures exists k :: 0 <= k < 16 && Order()[i][..k] == Order()[j][..k] && Order()[i][k] < Order()[j][k]
  {
    var a, b := Id(i + 1), Id(j + 1);
    var k := if (i + 1) / 10 < (j + 1) / 10 then 14 else 15;
    assert a == Order()[i] && b == Order()[j];
    assert a[..k] == b[..k];
    assert a[k] < b[k];
  }

  lemma CasesValid()
    ensures ValidCatalog(Cases())
  {
    forall i, j | 0 <= i < j < 14 ensures Order()[i] != Order()[j] {
      NumberId(i + 1);
      NumberId(j + 1);
    }
  }

  /** Number of the i-th runtime-observed case. */
  function RuntimeNumber(i: nat): nat {
    if i == 10 then 13 else i + 1
  }

  lemma ClassOfCase(i: nat)
    requires i < 14
    ensures Order()[i] in Cases().classes && Cases().classes[Order()[i]] == ClassOf(i + 1)
  {
    NumberId(i + 1);
  }

  lemma RuntimeIsMember(i: nat)
    requires i < 11
    ensures Id(RuntimeNumber(i)) in Members(Cases(), RuntimeObserved)
  {
    ClassOfCase(RuntimeNumber(i) - 1);
    assert Id(RuntimeNumber(i)) == Order()[RuntimeNumber(i) - 1];
  }

  lemma MemberIsRuntime(id: string) returns (i: nat)
    requires id in Members(Cases(), RuntimeObserved)
    ensures i < 11 && id == Id(RuntimeNumber(i))
  {
    var k :| 0 <= k < 14 && Order()[k] == id;
    ClassOfCase(k);
    i := if k == 12 then 10 else k;
  }

  lemma RuntimeMembers(s: seq<string>)
    requires |s| == 11 && forall i | 0 <= i < 11 :: s[i] == Id(RuntimeNumber(i))
    ensures Elements(s) == Members(Cases(), RuntimeObserved)
  {
    forall id | id in Elements(s) ensures id in Members(Cases(), RuntimeObserved) {
      var i :| 0 <= i < 11 && s[i] == id;
      RuntimeIsMember(i);
    }
    forall id | id in Members(Cases(), RuntimeObserved) ensures id in Elements(s) {
      var i := MemberIsRuntime(id);
      assert s[i] == id;
    }
  }

  /** Eleven cases are observed at runtime, not fourteen. */
  lemma RuntimeCount()
    ensures |Members(Cases(), RuntimeObserved)| == 11
  {
    var s := seq(11, i requires 0 <= i < 11 => Id(RuntimeNumber(i)));
    forall i, j | 0 <= i < j < 11 ensures s[i] != s[j] {
      NumberId(RuntimeNumber(i));
      NumberId(RuntimeNumber(j));
    }
    DistinctCard(s);
    RuntimeMembers(s);
  }
}
