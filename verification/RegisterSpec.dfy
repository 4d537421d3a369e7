/** The single-register specification: what a linearization of a history is,
    first over operations, then over operation indices. */
module RegisterSpec {
  import opened Sequences

  /** A register value: a string, or None for JSON null. */
  type Value = Option<string>

  datatype Kind = Read | Write

  datatype Operation = Operation(id: string, kind: Kind, invoke: int, complete: int, input: Value, output: Value)

  /** Real-time order: `a` finished before `b` was invoked. */
  predicate Before(a: Operation, b: Operation) {
    a.complete < b.invoke
  }

  /** The operation's observed output is the register's answer in `state`; a write may report none. */
  predicate Admissible(op: Operation, state: Value) {
    op.output == state || (op.kind.Write? && op.output.None?)
  }

  function After(op: Operation, state: Value): Value {
    match op.kind
    case Read => state
    case Write => op.input
  }

  function Run(ops: seq<Operation>, state: Value): Value {
    if ops == [] then state else Run(ops[1..], After(ops[0], state))
  }

  /** Executed one at a time from `state`, every operation in `v` gets the answer it recorded. */
  ghost predicate Legal(v: seq<Operation>, state: Value) {
    forall k | 0 <= k < |v| :: Admissible(v[k], Run(v[..k], state))
  }

  ghost predicate RespectsRealTime(v: seq<Operation>) {
    forall i, j | 0 <= i < j < |v| :: !Before(v[j], v[i])
  }

  /** `v` is a linearization of the history `ops` of a register holding `state`. */
  ghost predicate IsLinearization(v: seq<Operation>, ops: seq<Operation>, state: Value) {
    multiset(v) == multiset(ops) && RespectsRealTime(v) && Legal(v, state)
  }

  ghost predicate Linearizable(ops: seq<Operation>, state: Value) {
    exists v :: IsLinearization(v, ops, state)
  }

  /** `w` orders exactly the operations with indices in `todo`. */
  ghost predicate Orders(ops: seq<Operation>, todo: set<nat>, state: Value, w: seq<nat>) {
    && Distinct(w)
    && Elements(w) == todo
    && Indices(w, |ops|)
    && RespectsRealTime(Pick(ops, w))
    && Legal(Pick(ops, w), state)
  }

  /** No operation of `todo` other than `i` itself finished before `i` was invoked. */
  ghost predicate Unblocked(ops: seq<Operation>, todo: set<nat>, i: nat)
    requires i < |ops|
  {
    forall j | j in todo && j < |ops| && j != i :: !Before(ops[j], ops[i])
  }

  // ----- legality and real-time order, one operation at a time

  lemma LegalTail(v: seq<Operation>, state: Value)
    requires v != []
    ensures Legal(v, state) <==> Admissible(v[0], state) && Legal(v[1..], After(v[0], state))
  {
    var t := v[1..];
    if Legal(v, state) {
      assert Admissible(v[0], Run(v[..0], state));
      forall k | 0 <= k < |t| ensures Admissible(t[k], Run(t[..k], After(v[0], state))) {
        assert Admissible(v[k + 1], Run(v[..k + 1], state));
        assert v[..k + 1][1..] == t[..k];
      }
    }
    if Admissible(v[0], state) && Legal(t, After(v[0], state)) {
      forall k | 0 <= k < |v| ensures Admissible(v[k], Run(v[..k], state)) {
        if k > 0 {
          assert Admissible(t[k - 1], Run(t[..k - 1], After(v[0], state)));
          assert v[..k][1..] == t[..k - 1];
        }
      }
    }
  }

  lemma OrdersTail(ops: seq<Operation>, todo: set<nat>, state: Value, w: seq<nat>)
    requires Orders(ops, todo, state, w) && w != []
    ensures w[0] in todo && w[0] < |ops| && Unblocked(ops, todo, w[0]) && Admissible(ops[w[0]], state)
    ensures Orders(ops, todo - {w[0]}, After(ops[w[0]], state), w[1..])
  {
    var i, t := w[0], w[1..];
    var v := Pick(ops, w);
    assert i in Elements(w);
    assert Pick(ops, t) == v[1..];
    LegalTail(v, state);
    assert Elements(t) == todo - {i} by {
      assert forall x :: x in Elements(w) <==> x == i || x in t;
    }
    forall j | j in todo && j < |ops| && j != i ensures !Before(ops[j], ops[i]) {
      assert j in Elements(w);
      var k :| 0 <= k < |w| && w[k] == j;
      assert !Before(v[k], v[0]);
    }
  }

  lemma OrdersCons(ops: seq<Operation>, todo: set<nat>, state: Value, i: nat, t: seq<nat>)
    requires i in todo && i < |ops| && Unblocked(ops, todo, i) && Admissible(ops[i], state)
    requires Orders(ops, todo - {i}, After(ops[i], state), t)
    ensures Orders(ops, todo, state, [i] + t)
  {
    var w := [i] + t;
    assert Elements(w) == todo by {
      assert forall x :: x in w <==> x == i || x in Elements(t);
    }
    assert Distinct(w) by {
      assert forall x | x in t :: x in Elements(t);
    }
    var v := Pick(ops, w);
    assert v[1..] == Pick(ops, t) && v[0] == ops[i];
    LegalTail(v, state);
    forall a, b | 0 <= a < b < |v| ensures !Before(v[b], v[a]) {
      if a == 0 {
        assert t[b - 1] in Elements(t);
      } else {
        assert v[1..][a - 1] == v[a] && v[1..][b - 1] == v[b];
      }
    }
  }

  // ----- the two readings of a linearization agree

  lemma IndicesToOperations(ops: seq<Operation>, state: Value, w: seq<nat>)
    requires Orders(ops, Below(|ops|), state, w)
    ensures IsLinearization(Pick(ops, w), ops, state)
  {
    DistinctCard(w);
    PickPermutes(ops, w);
  }

  lemma OperationsToIndices(ops: seq<Operation>, state: Value, v: seq<Operation>) returns (w: seq<nat>)
    requires IsLinearization(v, ops, state)
    ensures Orders(ops, Below(|ops|), state, w)
  {
    w := PermutationOf(ops, v);
    PermutationCovers(w, |ops|);
  }

  /** The property does not depend on the order in which the history lists its operations. */
  lemma ReorderInvariant(ops: seq<Operation>, ops': seq<Operation>, state: Value)
    requires multiset(ops) == multiset(ops')
    ensures Linearizable(ops, state) <==> Linearizable(ops', state)
  {
    if Linearizable(ops, state) {
      var v :| IsLinearization(v, ops, state);
      assert IsLinearization(v, ops', state);
    }
    if Linearizable(ops', state) {
      var v :| IsLinearization(v, ops', state);
      assert IsLinearization(v, ops, state);
    }
  }

  // ----- what validation of the timestamps buys

  ghost predicate Timed(ops: seq<Operation>) {
    forall i | 0 <= i < |ops| :: ops[i].invoke < ops[i].complete
  }

  lemma RealTimeIsStrictOrder(a: Operation, b: Operation, c: Operation)
    requires a.invoke < a.complete && b.invoke < b.complete && c.invoke < c.complete
    ensures !Before(a, a)
    ensures Before(a, b) && Before(b, c) ==> Before(a, c)
  {
  }

  lemma {:induction false} EarliestInvoked(ops: seq<Operation>, todo: set<nat>) returns (i: nat)
    requires todo != {} && forall j | j in todo :: j < |ops|
    ensures i in todo
    ensures forall j | j in todo :: ops[i].invoke <= ops[j].invoke
  {
    i :| i in todo;
    if todo != {i} {
      var k := EarliestInvoked(ops, todo - {i});
      if ops[k].invoke < ops[i].invoke { i := k; }
    }
  }

  /** In a timed history the search is never stuck for real-time reasons alone. */
  lemma SomeUnblocked(ops: seq<Operation>, todo: set<nat>)
    requires Timed(ops) && todo != {} && forall j | j in todo :: j < |ops|
    ensures exists i :: i in todo && i < |ops| && Unblocked(ops, todo, i)
  {
    var i := EarliestInvoked(ops, todo);
    assert Unblocked(ops, todo, i);
  }
}
