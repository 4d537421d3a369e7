/** The set of workspace packages that the server depends on at run time. */
module RuntimeClosure {
  import opened Sequences

  /** One entry of a dependency table: its alias, whether it is a path dependency, and the
      package it names if that differs from the alias. */
  datatype Dependency = Dependency(alias: string, path: bool, package: Option<string>)

  /** The normal and the target-specific dependency tables of a manifest. */
  type Tables = seq<seq<Dependency>>

  function Target(d: Dependency): string {
    match d.package
    case Some(name) => name
    case None => d.alias
  }

  /** `from` is mapped and has `to` as a runtime path dependency. */
  ghost predicate Edge(packages: map<string, Tables>, from: string, to: string) {
    from in packages && exists i, j ::
      && 0 <= i < |packages[from]| && 0 <= j < |packages[from][i]|
      && packages[from][i][j].path && Target(packages[from][i][j]) == to
  }

  ghost predicate IsPath(packages: map<string, Tables>, path: seq<string>) {
    path != [] && forall k | 0 <= k < |path| - 1 :: Edge(packages, path[k], path[k + 1])
  }

  ghost predicate Reachable(packages: map<string, Tables>, root: string, name: string) {
    exists path :: IsPath(packages, path) && path[0] == root && path[|path| - 1] == name
  }

  datatype Outcome = Closure(names: set<string>) | Unmapped(name: string) | NoRoot

  lemma ReachableRoot(packages: map<string, Tables>, root: string)
    ensures Reachable(packages, root, root)
  {
    assert IsPath(packages, [root]);
  }

  lemma ReachableStep(packages: map<string, Tables>, root: string, from: string, to: string)
    requires Reachable(packages, root, from) && Edge(packages, from, to)
    ensures Reachable(packages, root, to)
  {
    var path :| IsPath(packages, path) && path[0] == root && path[|path| - 1] == from;
    var longer := path + [to];
    assert IsPath(packages, longer);
    assert longer[|longer| - 1] == to;
  }

  /** A set with the root that contains the targets of its members contains everything reachable. */
  lemma {:induction false} ClosedContainsPath(packages: map<string, Tables>, s: set<string>, path: seq<string>)
    requires IsPath(packages, path) && path[0] in s
    requires forall a, b | a in s && Edge(packages, a, b) :: b in s
    ensures path[|path| - 1] in s
    decreases |path|
  {
    if |path| > 1 {
      assert Edge(packages, path[0], path[1]);
      var rest := path[1..];
      forall k | 0 <= k < |rest| - 1 ensures Edge(packages, rest[k], rest[k + 1]) {
        assert Edge(packages, path[k + 1], path[k + 2]);
      }
      ClosedContainsPath(packages, s, rest);
    }
  }

  lemma ClosedIsReachable(packages: map<string, Tables>, root: string, s: set<string>)
    requires root in s && forall a, b | a in s && Edge(packages, a, b) :: b in s
    ensures forall name | Reachable(packages, root, name) :: name in s
  {
    forall name | Reachable(packages, root, name) ensures name in s {
      var path :| IsPath(packages, path) && path[0] == root && path[|path| - 1] == name;
      ClosedContainsPath(packages, s, path);
    }
  }

  /** The targets in the first `i` tables and the first `j` entries of the next. */
  ghost predicate Seen(tables: Tables, i: nat, j: nat, to: string) {
    exists k, l :: 0 <= k < |tables| && 0 <= l < |tables[k]| && (k < i || (k == i && l < j))
      && tables[k][l].path && Target(tables[k][l]) == to
  }

  /** Worklist state: `closure` is what has been found, `pending` what has not been expanded,
      `expanded` what has, each once. */
  ghost predicate Inv(packages: map<string, Tables>, root: string, closure: set<string>, pending: seq<string>,
      expanded: seq<string>) {
    && root in closure && closure <= packages.Keys
    && Distinct(expanded + pending) && closure == Elements(expanded + pending)
    && (forall name | name in closure :: Reachable(packages, root, name))
  }

  /** Scans the tables of one package, adding what is new; or finds an unmapped dependency. */
  method Expand(packages: map<string, Tables>, root: string, name: string,
                found: set<string>, todo: seq<string>, ghost expanded: seq<string>)
    returns (r: Option<string>, closure: set<string>, pending: seq<string>)
    requires Inv(packages, root, found, todo, expanded) && name in packages && Reachable(packages, root, name)
    ensures r.Some? ==> Reachable(packages, root, r.value) && r.value !in packages
    ensures r.None? ==>
              && Inv(packages, root, closure, pending, expanded) && found <= closure
              && forall to | Edge(packages, name, to) :: to in closure
  {
    closure, pending := found, todo;
    var tables := packages[name];
    var i := 0;
    while i < |tables|
      invariant 0 <= i <= |tables| && found <= closure
      invariant Inv(packages, root, closure, pending, expanded)
      invariant forall to | Seen(tables, i, 0, to) :: to in closure
    {
      var j := 0;
      while j < |tables[i]|
        invariant 0 <= j <= |tables[i]| && found <= closure
        invariant Inv(packages, root, closure, pending, expanded)
        invariant forall to | Seen(tables, i, j, to) :: to in closure
      {
        var value := tables[i][j];
        if value.path {
          var dependency := Target(value);
          assert Edge(packages, name, dependency);
          ReachableStep(packages, root, name, dependency);
          if dependency !in packages {
            return Some(dependency), closure, pending;
          }
          if dependency !in closure {
            AddPending(packages, root, closure, pending, expanded, dependency);
            closure := closure + {dependency};
            pending := pending + [dependency];
          }
        }
        j := j + 1;
      }
      i := i + 1;
    }
    r := None;
    forall to | Edge(packages, name, to) ensures to in closure {
      assert Seen(tables, i, 0, to);
    }
  }

  lemma AddPending(packages: map<string, Tables>, root: string, closure: set<string>, pending: seq<string>,
      expanded: seq<string>, name: string)
    requires Inv(packages, root, closure, pending, expanded) && name in packages && name !in closure
        && Reachable(packages, root, name)
    ensures Inv(packages, root, closure + {name}, pending + [name], expanded)
  {
    var old_, new_ := expanded + pending, expanded + (pending + [name]);
    assert new_ == old_ + [name];
    forall x | x in old_ ensures x != name { assert x in Elements(old_); }
    assert Elements(new_) == Elements(old_) + {name};
  }

  lemma MoveToExpanded(packages: map<string, Tables>, root: string, closure: set<string>, pending: seq<string>,
      expanded: seq<string>)
    requires Inv(packages, root, closure, pending, expanded) && pending != []
    ensures Inv(packages, root, closure, pending[..|pending| - 1], expanded + [pending[|pending| - 1]])
  {
    var n := |pending| - 1;
    var before, after := expanded + pending, expanded + [pending[n]] + pending[..n];
    forall x ensures x in before <==> x in after {
      if x in pending { var k :| 0 <= k < |pending| && pending[k] == x; }
    }
    assert Elements(before) == Elements(after);
    forall i, j | 0 <= i < j < |after| ensures after[i] != after[j] {
      var i' := if i < |expanded| then i else if i == |expanded| then |before| - 1 else i - 1;
      var j' := if j < |expanded| then j else if j == |expanded| then |before| - 1 else j - 1;
      assert after[i] == before[i'] && after[j] == before[j'] && i' != j';
    }
  }

  /** The closure of the root, or the first unmapped dependency met. */
  method Compute(packages: map<string, Tables>, root: string) returns (r: Outcome, ghost expanded: seq<string>)
    ensures r.NoRoot? <==> root !in packages
    ensures r.Closure? ==> forall name :: name in r.names <==> Reachable(packages, root, name)
    ensures r.Closure? ==> Distinct(expanded) && Elements(expanded) == r.names
    ensures r.Unmapped? ==> Reachable(packages, root, r.name) && r.name !in packages
    ensures r.Unmapped? <==> root in packages && exists name :: Reachable(packages, root, name) && name !in packages
  {
    expanded := [];
    if root !in packages {
      return NoRoot, [];
    }
    var closure, pending := {root}, [root];
    ReachableRoot(packages, root);
    assert Elements(expanded + pending) == {root};
    while pending != []
      invariant Inv(packages, root, closure, pending, expanded)
      invariant forall a, b | a in expanded && Edge(packages, a, b) :: b in closure
      decreases |packages| - |expanded|
    {
      ExpandedBound(packages, root, closure, pending, expanded);
      var name := pending[|pending| - 1];
      assert name in Elements(expanded + pending);
      MoveToExpanded(packages, root, closure, pending, expanded);
      ghost var done := expanded;
      expanded := expanded + [name];
      var found, wider, longer := Expand(packages, root, name, closure, pending[..|pending| - 1], expanded);
      if found.Some? {
        return Unmapped(found.value), expanded;
      }
      forall a, b | a in expanded && Edge(packages, a, b) ensures b in wider {
        assert a in done || a == name;
      }
      closure, pending := wider, longer;
    }
    assert expanded + pending == expanded;
    forall a, b | a in closure && Edge(packages, a, b) ensures b in closure { assert a in Elements(expanded); }
    ClosedIsReachable(packages, root, closure);
    r := Closure(closure);
  }

  lemma ExpandedBound(packages: map<string, Tables>, root: string, closure: set<string>, pending: seq<string>,
      expanded: seq<string>)
    requires Inv(packages, root, closure, pending, expanded) && pending != []
    ensures |expanded| < |packages|
  {
    DistinctCard(expanded + pending);
    SubsetCard(closure, packages.Keys);
  }
}
