/** The checker as executed: predecessor masks filled by nested loops, a search
    with a result cache and a counter of explored states, and the validation in
    front of it. */
module LinearizabilityChecker {
  import opened Bits
  import opened Sequences
  import opened RegisterSpec
  import opened BacktrackingSearch

  const MAX_OPERATIONS := 64

  method BuildPredecessors(ops: seq<Operation>) returns (preds: seq<nat>)
    ensures Predecessors(ops, preds)
  {
    var masks := new nat[|ops|](_ => 0);
    forall i: nat ensures !Bit(0, i) { ZeroHasNoBits(i); }
    for earlier := 0 to |ops|
      invariant forall i: nat, j {:trigger Bit(masks[j], i)} | 0 <= j < |ops| ::
                  Bit(masks[j], i) <==> i < earlier && i != j && Before(ops[i], ops[j])
    {
      for later := 0 to |ops|
        invariant forall i: nat, j {:trigger Bit(masks[j], i)} | 0 <= j < |ops| ::
                    Bit(masks[j], i) <==>
                      i < (if j < later then earlier + 1 else earlier) && i != j && Before(ops[i], ops[j])
      {
        if earlier != later && Before(ops[earlier], ops[later]) {
          ghost var mask := masks[later];
          masks[later] := Or(masks[later], Pow2(earlier));
          forall i: nat ensures Bit(masks[later], i) <==> Bit(mask, i) || i == earlier {
            OrBit(mask, Pow2(earlier), i);
            Pow2Bit(earlier, i);
          }
        }
      }
    }
    preds := masks[..];
  }

  // ----- the values a register can hold during a search

  function Writes(ops: seq<Operation>): nat {
    if ops == [] then 0 else (if ops[0].kind.Write? then 1 else 0) + Writes(ops[1..])
  }

  function RegisterValues(ops: seq<Operation>, initial: Value): (r: set<Value>)
    ensures initial in r
    ensures |r| <= 1 + Writes(ops)
  {
    if ops == [] then {initial}
    else RegisterValues(ops[1..], initial) + (if ops[0].kind.Write? then {ops[0].input} else {})
  }

  lemma {:induction false} WrittenValue(ops: seq<Operation>, initial: Value, i: nat)
    requires i < |ops| && ops[i].kind.Write?
    ensures ops[i].input in RegisterValues(ops, initial)
  {
    if i > 0 {
      assert ops[i] == ops[1..][i - 1];
      WrittenValue(ops[1..], initial, i - 1);
    }
  }

  type Key = (nat, Value)

  /** A set of (mask, value) pairs is no larger than masks times values. */
  lemma {:induction false} KeyCount(keys: set<Key>, masks: nat, values: set<Value>)
    requires forall key | key in keys :: key.0 < masks && key.1 in values
    ensures |keys| <= masks * |values|
  {
    if masks == 0 {
      assert keys == {};
    } else {
      var top := set key | key in keys && key.0 == masks - 1;
      var held := set key | key in top :: key.1;
      TopCount(top, masks - 1, held);
      SubsetCard(held, values);
      KeyCount(keys - top, masks - 1, values);
      assert keys == (keys - top) + top;
      assert masks * |values| == (masks - 1) * |values| + |values|;
    }
  }

  lemma {:induction false} TopCount(top: set<Key>, mask: nat, held: set<Value>)
    requires forall key | key in top :: key.0 == mask
    requires held == set key | key in top :: key.1
    ensures |top| == |held|
  {
    if top != {} {
      var key :| key in top;
      var rest := top - {key};
      var heldRest := set k | k in rest :: k.1;
      TopCount(rest, mask, heldRest);
      assert key.1 !in heldRest;
      assert held == heldRest + {key.1} by {
        forall v | v in held ensures v in heldRest + {key.1} {
          var k :| k in top && k.1 == v;
          assert k == key || k in rest;
        }
      }
    }
  }

  /** The pairs a search of these operations can meet. */
  ghost predicate InRange(ops: seq<Operation>, initial: Value, key: Key) {
    key.0 < Pow2(|ops|) && key.1 in RegisterValues(ops, initial)
  }

  lemma NextInRange(ops: seq<Operation>, preds: seq<nat>, initial: Value, remaining: nat, state: Value, index: nat)
    requires |preds| == |ops| && index < |ops| && InRange(ops, initial, (remaining, state))
    requires Eligible(ops, preds, remaining, state, index)
    ensures Xor(remaining, Pow2(index)) < remaining
    ensures InRange(ops, initial, (Xor(remaining, Pow2(index)), After(ops[index], state)))
  {
    Remaining(remaining, index);
    MaskRemove(remaining, |ops|, index);
    if ops[index].kind.Write? {
      WrittenValue(ops, initial, index);
    }
  }

  class Checker {
    const operations: seq<Operation>
    const predecessors: seq<nat>
    var cache: map<Key, Option<seq<nat>>>
    var explored: nat

    ghost const initial: Value
    ghost var visited: set<Key>   // the pairs whose search body has been entered

    constructor (ops: seq<Operation>, preds: seq<nat>, ghost state: Value)
      requires |preds| == |ops|
      ensures operations == ops && predecessors == preds && initial == state
      ensures Valid() && cache == map[] && visited == {}
    {
      operations, predecessors := ops, preds;
      cache, explored := map[], 0;
      initial, visited := state, {};
    }

    ghost predicate Valid()
      reads this
    {
      && |predecessors| == |operations|
      && cache.Keys <= visited
      && explored == |visited|
      && (forall key | key in cache :: cache[key] == Search(operations, predecessors, key.0, key.1))
      && (forall key | key in visited :: InRange(operations, initial, key))
    }

    /** The pairs whose search has started and not yet returned. */
    ghost function Active(): set<Key>
      reads this
    {
      visited - cache.Keys
    }

    /** The `lru_cache` wrapper: the body runs only for a pair not seen before. */
    method Find(remaining: nat, state: Value) returns (r: Option<seq<nat>>)
      requires Valid() && InRange(operations, initial, (remaining, state))
      requires forall key | key in Active() :: key.0 > remaining
      modifies this`cache, this`explored, this`visited
      ensures Valid()
      ensures r == Search(operations, predecessors, remaining, state)
      ensures Active() == old(Active())
      decreases remaining, 1
    {
      var key := (remaining, state);
      if key in cache {
        return cache[key];
      }
      assert key !in visited;
      r := Explore(remaining, state);
      cache := cache[key := r];
    }

    method Enter(key: Key)
      requires Valid() && InRange(operations, initial, key) && key !in visited
      modifies this`explored, this`visited
      ensures Valid() && explored == old(explored) + 1
      ensures Active() == old(Active()) + {key}
    {
      explored := explored + 1;
      visited := visited + {key};
    }

    /** The body of the search. */
    method Explore(remaining: nat, state: Value) returns (r: Option<seq<nat>>)
      requires Valid() && InRange(operations, initial, (remaining, state)) && (remaining, state) !in visited
      requires forall key | key in Active() :: key.0 > remaining
      modifies this`cache, this`explored, this`visited
      ensures Valid()
      ensures r == Search(operations, predecessors, remaining, state)
      ensures Active() == old(Active()) + {(remaining, state)}
      decreases remaining, 0
    {
      Enter((remaining, state));
      if remaining == 0 {
        return Some([]);
      }
      var index: nat := 0;
      while index < |operations|
        invariant index <= |operations|
        invariant Valid() && Active() == old(Active()) + {(remaining, state)}
        invariant Search(operations, predecessors, remaining, state)
                  == Scan(operations, predecessors, remaining, state, index)
      {
        if Eligible(operations, predecessors, remaining, state, index) {
          NextInRange(operations, predecessors, initial, remaining, state, index);
          var suffix := Find(Xor(remaining, Pow2(index)), After(operations[index], state));
          if suffix.Some? {
            return Some([index] + suffix.value);
          }
        }
        index := index + 1;
      }
      return None;
    }
  }

  function Ids(ops: seq<Operation>): (r: seq<string>)
    ensures |r| == |ops| && forall k | 0 <= k < |ops| :: r[k] == ops[k].id
  {
    seq(|ops|, k requires 0 <= k < |ops| => ops[k].id)
  }

  method CheckLinearizable(ops: seq<Operation>, initial: Value)
    returns (linearizable: bool, order: seq<string>, explored: nat)
    ensures linearizable <==> Linearizable(ops, initial)
    ensures linearizable ==>
              exists w :: Least(ops, Below(|ops|), initial, Some(w)) && order == Ids(Pick(ops, w))
    ensures !linearizable ==> order == []
    ensures explored <= Pow2(|ops|) * (1 + Writes(ops))
  {
    var preds := BuildPredecessors(ops);
    var checker := new Checker(ops, preds, initial);
    var full: nat := Pow2(|ops|) - 1;
    var found := checker.Find(full, initial);
    explored := checker.explored;
    FullSearch(ops, preds, full, initial);
    ExploredBound(checker.visited, ops, initial);
    VerdictIsRight(ops, initial, found);
    linearizable := found.Some?;
    order := if found.Some? then Ids(Pick(ops, found.value)) else [];
  }

  lemma FullSearch(ops: seq<Operation>, preds: seq<nat>, full: nat, initial: Value)
    requires Predecessors(ops, preds) && full == Pow2(|ops|) - 1
    ensures Least(ops, Below(|ops|), initial, Search(ops, preds, full, initial))
  {
    SearchIsLeast(ops, preds, full, initial);
    assert MaskSet(full, |ops|) == Below(|ops|) by {
      MaskFull(|ops|);
    }
  }

  /** An order of the indices is found exactly when the operations can be linearized. */
  lemma VerdictIsRight(ops: seq<Operation>, initial: Value, found: Option<seq<nat>>)
    requires Least(ops, Below(|ops|), initial, found)
    ensures found.Some? <==> Linearizable(ops, initial)
    ensures found.Some? ==> Indices(found.value, |ops|)
  {
    if found.Some? {
      IndicesToOperations(ops, initial, found.value);
    } else if v :| IsLinearization(v, ops, initial) {
      var w := OperationsToIndices(ops, initial, v);
      assert false;
    }
  }

  lemma ExploredBound(visited: set<Key>, ops: seq<Operation>, initial: Value)
    requires forall key | key in visited :: key.0 < Pow2(|ops|) && key.1 in RegisterValues(ops, initial)
    ensures |visited| <= Pow2(|ops|) * (1 + Writes(ops))
  {
    var values := RegisterValues(ops, initial);
    KeyCount(visited, Pow2(|ops|), values);
    MulMonotone(Pow2(|ops|), |values|, 1 + Writes(ops));
  }

  lemma MulMonotone(a: nat, b: nat, c: nat)
    requires b <= c
    ensures a * b <= a * c
  {
  }

  // ----- validation

  /** The value of a key of a JSON object; Whole is an integer that is not a boolean. */
  datatype Field = Null | Text(text: string) | Whole(value: int) | Flag(flag: bool) | Nested | Other

  type Fields = map<string, Field>

  /** A history as read: its own keys, and the entries of its operations where those are a list; an
      entry that is not an object is None. Nested stands for an object, Other for a list or a float. */
  datatype RawHistory = NotAnObject | RawHistory(fields: Fields, operations: Option<seq<Option<Fields>>>)

  const HISTORY_KEYS := {
    "schema", "model", "candidate_id", "version", "profile_id", "seed", "initial_value", "operations",
    "execution_scope", "durability_class", "qualification", "selection_effect", "authority_effect"}

  const OPERATION_KEYS := {"id", "client", "kind", "invoke", "complete", "input", "output", "status"}

  /** `isHex` says which texts int(text, 16) reads. */
  predicate HeaderValid(isHex: string -> bool, f: Fields) {
    && HISTORY_KEYS <= f.Keys <= HISTORY_KEYS + {"metadata"}
    && f["schema"] == Text("heptabao.h02-linearizability-history.v1") && f["model"] == Text("single-register-v1")
    && f["candidate_id"] == Text("HB-DEP-RAFT-OPENRAFT") && f["version"] == Text("0.10.0-alpha.33")
    && f["profile_id"] == Text("HB-H02-FAULT-LAB-OPENRAFT-0_10_0_ALPHA_33")
    && f["execution_scope"] == Text("REAL_OPENRAFT_READINDEX_SINGLE_REGISTER_HISTORY")
    && f["durability_class"] == Text("TEST_ONLY_IN_MEMORY_NO_PRODUCTION_CLAIM")
    && f["qualification"] == Flag(false) && f["selection_effect"] == Text("NONE")
    && f["authority_effect"] == Text("NONE")
    && IsValue(f["initial_value"])
    && f["seed"].Text? && |f["seed"].text| >= 2 && f["seed"].text[..2] == "0x" && isHex(f["seed"].text[2..])
    && ("metadata" in f ==> f["metadata"].Nested?)
  }

  /** A string or null. */
  predicate IsValue(f: Field) {
    f.Null? || f.Text?
  }

  function AsValue(f: Field): Value
    requires IsValue(f)
  {
    if f.Null? then None else Some(f.text)
  }

  predicate NonEmpty(f: Field) {
    f.Text? && f.text != ""
  }

  predicate WellFormed(op: Fields) {
    && OPERATION_KEYS <= op.Keys <= OPERATION_KEYS + {"node_id", "error"}
    && NonEmpty(op["id"]) && NonEmpty(op["client"])
    && (op["kind"] == Text("write") || op["kind"] == Text("read"))
    && op["invoke"].Whole? && op["complete"].Whole? && 0 <= op["invoke"].value < op["complete"].value
    && op["status"] == Text("ok") && IsValue(op["input"]) && IsValue(op["output"])
    && (op["kind"] == Text("write") ==> op["input"] != Null) && (op["kind"] == Text("read") ==> op["input"] == Null)
  }

  function Typed(op: Fields): Operation
    requires WellFormed(op)
  {
    Operation(op["id"].text, if op["kind"] == Text("read") then Read else Write,
      op["invoke"].value, op["complete"].value, AsValue(op["input"]), AsValue(op["output"]))
  }

  predicate EntryValid(entry: Option<Fields>) {
    entry.Some? && WellFormed(entry.value)
  }

  predicate EntriesValid(entries: seq<Option<Fields>>) {
    forall i | 0 <= i < |entries| :: EntryValid(entries[i])
  }

  function AllTyped(entries: seq<Option<Fields>>): (r: seq<Operation>)
    requires EntriesValid(entries)
    ensures |r| == |entries| && forall i | 0 <= i < |entries| :: r[i] == Typed(entries[i].value)
  {
    seq(|entries|, i requires 0 <= i < |entries| => Typed(entries[i].value))
  }

  ghost predicate OperationsValid(entries: seq<Option<Fields>>) {
    && 1 <= |entries| <= MAX_OPERATIONS && EntriesValid(entries)
    && forall i, j | 0 <= i < j < |entries| :: entries[i].value["id"] != entries[j].value["id"]
  }

  lemma IdsDiffer(entries: seq<Option<Fields>>)
    requires EntriesValid(entries)
    ensures Distinct(Ids(AllTyped(entries))) <==>
            forall i, j | 0 <= i < j < |entries| :: entries[i].value["id"] != entries[j].value["id"]
  {
    var ids := Ids(AllTyped(entries));
    assert forall i | 0 <= i < |entries| :: ids[i] == entries[i].value["id"].text;
  }

  ghost predicate ValidHistory(isHex: string -> bool, h: RawHistory) {
    h.RawHistory? && HeaderValid(isHex, h.fields) && h.operations.Some? && OperationsValid(h.operations.value)
  }

  lemma TypedSnoc(entries: seq<Option<Fields>>, k: nat)
    requires k < |entries| && EntriesValid(entries[..k]) && EntryValid(entries[k])
    ensures EntriesValid(entries[..k + 1])
    ensures Ids(AllTyped(entries[..k + 1])) == Ids(AllTyped(entries[..k])) + [Typed(entries[k].value).id]
  {
    assert entries[..k + 1] == entries[..k] + [entries[k]];
  }

  lemma IdsPrefix(entries: seq<Option<Fields>>, k: nat)
    requires k <= |entries| && EntriesValid(entries) && Distinct(Ids(AllTyped(entries)))
    ensures EntriesValid(entries[..k]) && Distinct(Ids(AllTyped(entries[..k])))
  {
    assert Ids(AllTyped(entries[..k])) == Ids(AllTyped(entries))[..k];
  }

  /** The loop over the operations, with the set of identifiers seen. */
  method ValidateOperations(entries: seq<Option<Fields>>) returns (ok: bool)
    ensures ok <==> OperationsValid(entries)
  {
    if |entries| == 0 || |entries| > MAX_OPERATIONS {
      return false;
    }
    var ids: set<string> := {};
    for k := 0 to |entries|
      invariant EntriesValid(entries[..k])
      invariant Distinct(Ids(AllTyped(entries[..k]))) && ids == Elements(Ids(AllTyped(entries[..k])))
    {
      if !EntryValid(entries[k]) {
        return false;
      }
      var id := Typed(entries[k].value).id;
      TypedSnoc(entries, k);
      DistinctSnoc(Ids(AllTyped(entries[..k])), id);
      if id in ids {
        if OperationsValid(entries) {
          IdsDiffer(entries);
          IdsPrefix(entries, k + 1);
        }
        return false;
      }
      ids := ids + {id};
    }
    assert entries[..|entries|] == entries;
    IdsDiffer(entries);
    return true;
  }

  method ValidateHistory(isHex: string -> bool, h: RawHistory) returns (ok: bool)
    ensures ok <==> ValidHistory(isHex, h)
  {
    if h.NotAnObject? || !HeaderValid(isHex, h.fields) || h.operations.None? {
      return false;
    }
    ok := ValidateOperations(h.operations.value);
  }

  // ----- evaluation

  datatype Outcome = Blocked | ExecutedPass(order: seq<string>, explored: nat) | ExecutedFail(explored: nat)

  predicate IsWrite(entry: Option<Fields>)
    requires EntryValid(entry)
  {
    entry.value["kind"] == Text("write")
  }

  /** Before place `k` the register holds `value`: the input of the last write before `k`, or
      `initial` when there is none. */
  ghost predicate Held(v: seq<Option<Fields>>, initial: Field, k: nat, value: Field)
    requires EntriesValid(v) && k <= |v|
  {
    || (value == initial && forall j | 0 <= j < k :: !IsWrite(v[j]))
    || exists i :: 0 <= i < k && IsWrite(v[i]) && value == v[i].value["input"]
          && forall j | i < j < k :: !IsWrite(v[j])
  }

  /** In this order no entry follows one that was invoked after it completed, and each entry's output is
      what the register then held, or null on a write. */
  ghost predicate Explains(v: seq<Option<Fields>>, initial: Field)
    requires EntriesValid(v)
  {
    && (forall i, j | 0 <= i < j < |v| :: v[i].value["invoke"].value <= v[j].value["complete"].value)
    && forall k | 0 <= k < |v| ::
         Held(v, initial, k, v[k].value["output"]) || (IsWrite(v[k]) && v[k].value["output"] == Null)
  }

  /** `w` lists the places of the entries in an order that explains them. */
  ghost predicate ExplainedBy(entries: seq<Option<Fields>>, initial: Field, w: seq<nat>)
    requires EntriesValid(entries)
  {
    IsPermutation(w, |entries|) && Explains(Pick(entries, w), initial)
  }

  /** Some order of the entries explains them. */
  ghost predicate Explainable(entries: seq<Option<Fields>>, initial: Field) {
    exists v :: multiset(v) == multiset(entries) && EntriesValid(v) && Explains(v, initial)
  }

  /** The outcome is the right verdict on these entries: a pass exactly when some order of them explains
      them, the least such order as witness, and the bound on explored pairs. */
  ghost predicate VerdictRight(entries: seq<Option<Fields>>, initial: Field, r: Outcome)
    requires EntriesValid(entries)
  {
    && !r.Blocked?
    && (r.ExecutedPass? <==> Explainable(entries, initial))
    && (r.ExecutedPass? ==> HasWitness(entries, initial, r.order))
    && r.explored <= Pow2(|entries|) * (1 + |WritePlaces(entries)|)
  }

  ghost predicate HasWitness(entries: seq<Option<Fields>>, initial: Field, order: seq<string>)
    requires EntriesValid(entries)
  {
    exists w :: IsWitness(entries, initial, w, order)
  }

  /** `w` is the least order that explains the entries, and `order` names it. */
  ghost predicate IsWitness(entries: seq<Option<Fields>>, initial: Field, w: seq<nat>, order: seq<string>)
    requires EntriesValid(entries)
  {
    && ExplainedBy(entries, initial, w) && (forall w' | ExplainedBy(entries, initial, w') :: LexLeq(w, w'))
    && |order| == |w| && forall k | 0 <= k < |w| :: entries[w[k]].value["id"] == Text(order[k])
  }

  ghost function WritePlaces(entries: seq<Option<Fields>>): set<nat>
    requires EntriesValid(entries)
  {
    set i | 0 <= i < |entries| && IsWrite(entries[i])
  }

  lemma {:induction false} RunSnoc(ops: seq<Operation>, op: Operation, state: Value)
    ensures Run(ops + [op], state) == After(op, Run(ops, state))
  {
    if ops == [] {
      assert [op][1..] == [];
    } else {
      assert (ops + [op])[1..] == ops[1..] + [op];
      RunSnoc(ops[1..], op, After(ops[0], state));
    }
  }

  /** The register machine on the operations holds what the entries say. */
  lemma {:induction false} RunIsHeld(v: seq<Option<Fields>>, initial: Field, k: nat, value: Field)
    requires EntriesValid(v) && IsValue(initial) && IsValue(value) && k <= |v|
    ensures Held(v, initial, k, value) <==> Run(AllTyped(v)[..k], AsValue(initial)) == AsValue(value)
    decreases k
  {
    var ops := AllTyped(v);
    if k > 0 {
      assert ops[..k] == ops[..k - 1] + [ops[k - 1]];
      RunSnoc(ops[..k - 1], ops[k - 1], AsValue(initial));
      RunIsHeld(v, initial, k - 1, value);
      HeldStep(v, initial, k, value);
    }
  }

  lemma HeldStep(v: seq<Option<Fields>>, initial: Field, k: nat, value: Field)
    requires EntriesValid(v) && 0 < k <= |v|
    ensures Held(v, initial, k, value) <==>
            if IsWrite(v[k - 1]) then value == v[k - 1].value["input"] else Held(v, initial, k - 1, value)
  {
  }

  lemma ExplainsIsLegal(v: seq<Option<Fields>>, initial: Field)
    requires EntriesValid(v) && IsValue(initial)
    ensures Explains(v, initial) <==> RespectsRealTime(AllTyped(v)) && Legal(AllTyped(v), AsValue(initial))
  {
    var ops, state := AllTyped(v), AsValue(initial);
    forall k | 0 <= k < |v|
      ensures Held(v, initial, k, v[k].value["output"]) || (IsWrite(v[k]) && v[k].value["output"] == Null)
              <==> Admissible(ops[k], Run(ops[..k], state))
    {
      assert EntryValid(v[k]);
      RunIsHeld(v, initial, k, v[k].value["output"]);
    }
    TimesAgree(v);
  }

  lemma TimesAgree(v: seq<Option<Fields>>)
    requires EntriesValid(v)
    ensures RespectsRealTime(AllTyped(v)) <==>
            forall i, j | 0 <= i < j < |v| :: v[i].value["invoke"].value <= v[j].value["complete"].value
  {
    var ops := AllTyped(v);
    assert forall i | 0 <= i < |v| ::
      ops[i].invoke == v[i].value["invoke"].value && ops[i].complete == v[i].value["complete"].value;
  }

  lemma PickTyped(entries: seq<Option<Fields>>, w: seq<nat>)
    requires EntriesValid(entries) && Indices(w, |entries|)
    ensures EntriesValid(Pick(entries, w)) && AllTyped(Pick(entries, w)) == Pick(AllTyped(entries), w)
  {
  }

  lemma ExplainedIsOrdered(entries: seq<Option<Fields>>, initial: Field, w: seq<nat>)
    requires EntriesValid(entries) && IsValue(initial)
    ensures ExplainedBy(entries, initial, w) <==>
            Orders(AllTyped(entries), Below(|entries|), AsValue(initial), w)
  {
    if IsPermutation(w, |entries|) {
      PermutationCovers(w, |entries|);
      PickTyped(entries, w);
      ExplainsIsLegal(Pick(entries, w), initial);
    } else if Orders(AllTyped(entries), Below(|entries|), AsValue(initial), w) {
      DistinctCard(w);
    }
  }

  lemma SomeOrderExplains(entries: seq<Option<Fields>>, initial: Field)
    requires EntriesValid(entries) && IsValue(initial)
    ensures Explainable(entries, initial) <==> exists w :: ExplainedBy(entries, initial, w)
  {
    if w :| ExplainedBy(entries, initial, w) {
      PickPermutes(entries, w);
      PickTyped(entries, w);
    }
    if v :| multiset(v) == multiset(entries) && EntriesValid(v) && Explains(v, initial) {
      var w := PermutationOf(entries, v);
      assert ExplainedBy(entries, initial, w);
    }
  }

  lemma WritesAre(entries: seq<Option<Fields>>)
    requires EntriesValid(entries)
    ensures Writes(AllTyped(entries)) == |WritePlaces(entries)|
  {
    var ops := AllTyped(entries);
    CountWrites(ops);
    assert WritePlaces(entries) == WritesIn(ops) by {
      forall i | 0 <= i < |ops| ensures IsWrite(entries[i]) <==> ops[i].kind.Write? { KindIs(entries[i]); }
    }
  }

  lemma KindIs(entry: Option<Fields>)
    requires EntryValid(entry)
    ensures IsWrite(entry) <==> Typed(entry.value).kind.Write?
  {
  }

  ghost function WritesIn(ops: seq<Operation>): set<nat> {
    set i | 0 <= i < |ops| && ops[i].kind.Write?
  }

  lemma {:induction false} CountWrites(ops: seq<Operation>)
    ensures Writes(ops) == |WritesIn(ops)|
  {
    if ops == [] {
      assert WritesIn(ops) == {};
    } else {
      var front, last := ops[..|ops| - 1], ops[|ops| - 1];
      CountWrites(front);
      assert ops == front + [last];
      WritesSnoc(front, last);
      WritesInSnoc(front, last);
    }
  }

  lemma WritesInSnoc(ops: seq<Operation>, op: Operation)
    ensures |WritesIn(ops + [op])| == |WritesIn(ops)| + if op.kind.Write? then 1 else 0
  {
    var all := ops + [op];
    assert forall i | 0 <= i < |ops| :: all[i] == ops[i];
    if op.kind.Write? {
      assert WritesIn(all) == WritesIn(ops) + {|ops|};
    } else {
      assert WritesIn(all) == WritesIn(ops);
    }
  }

  lemma {:induction false} WritesSnoc(ops: seq<Operation>, op: Operation)
    ensures Writes(ops + [op]) == Writes(ops) + if op.kind.Write? then 1 else 0
  {
    if ops == [] {
      assert [op][1..] == [];
    } else {
      assert (ops + [op])[1..] == ops[1..] + [op];
      WritesSnoc(ops[1..], op);
    }
  }

  method Judge(entries: seq<Option<Fields>>, initial: Field) returns (r: Outcome)
    requires EntriesValid(entries) && IsValue(initial)
    ensures VerdictRight(entries, initial, r)
  {
    var linearizable, order, explored := CheckLinearizable(AllTyped(entries), AsValue(initial));
    r := if linearizable then ExecutedPass(order, explored) else ExecutedFail(explored);
    VerdictOnEntries(entries, initial, linearizable, order);
    WritesAre(entries);
    RightFrom(entries, initial, linearizable, order, explored);
  }

  lemma RightFrom(entries: seq<Option<Fields>>, initial: Field, linearizable: bool, order: seq<string>, explored: nat)
    requires EntriesValid(entries) && (linearizable <==> Explainable(entries, initial))
    requires linearizable ==> HasWitness(entries, initial, order)
    requires explored <= Pow2(|entries|) * (1 + |WritePlaces(entries)|)
    ensures VerdictRight(entries, initial,
              if linearizable then ExecutedPass(order, explored) else ExecutedFail(explored))
  {
  }

  lemma VerdictOnEntries(entries: seq<Option<Fields>>, initial: Field, linearizable: bool, order: seq<string>)
    requires EntriesValid(entries) && IsValue(initial)
    requires var ops := AllTyped(entries);
             && (linearizable <==> Linearizable(ops, AsValue(initial)))
             && (linearizable ==>
                   exists w :: Least(ops, Below(|ops|), AsValue(initial), Some(w)) && order == Ids(Pick(ops, w)))
    ensures linearizable <==> Explainable(entries, initial)
    ensures linearizable ==> HasWitness(entries, initial, order)
  {
    var ops := AllTyped(entries);
    SomeOrderExplains(entries, initial);
    if linearizable {
      var w :| Least(ops, Below(|ops|), AsValue(initial), Some(w)) && order == Ids(Pick(ops, w));
      LeastIsWitness(entries, initial, w);
    } else if w :| ExplainedBy(entries, initial, w) {
      ExplainedIsOrdered(entries, initial, w);
      IndicesToOperations(ops, AsValue(initial), w);
      assert false;
    }
  }

  lemma LeastIsWitness(entries: seq<Option<Fields>>, initial: Field, w: seq<nat>)
    requires EntriesValid(entries) && IsValue(initial)
    requires Least(AllTyped(entries), Below(|entries|), AsValue(initial), Some(w))
    ensures IsWitness(entries, initial, w, Ids(Pick(AllTyped(entries), w)))
  {
    ExplainedIsOrdered(entries, initial, w);
    forall w' | ExplainedBy(entries, initial, w') ensures LexLeq(w, w') {
      ExplainedIsOrdered(entries, initial, w');
      assert Orders(AllTyped(entries), Below(|entries|), AsValue(initial), w');
    }
    NamesAre(entries, w);
  }

  lemma NamesAre(entries: seq<Option<Fields>>, w: seq<nat>)
    requires EntriesValid(entries) && Indices(w, |entries|)
    ensures forall k | 0 <= k < |w| :: entries[w[k]].value["id"] == Text(Ids(Pick(AllTyped(entries), w))[k])
  {
    forall k | 0 <= k < |w| ensures entries[w[k]].value["id"] == Text(Ids(Pick(AllTyped(entries), w))[k]) {
      IdIs(entries[w[k]]);
    }
  }

  lemma IdIs(entry: Option<Fields>)
    requires EntryValid(entry)
    ensures entry.value["id"] == Text(Typed(entry.value).id)
  {
  }

  /** Fail closed: a verdict is given only on a valid history, and it is the right one. */
  method Evaluate(isHex: string -> bool, h: RawHistory) returns (r: Outcome)
    ensures r.Blocked? <==> !ValidHistory(isHex, h)
    ensures !r.Blocked? ==> VerdictRight(h.operations.value, h.fields["initial_value"], r)
  {
    var ok := ValidateHistory(isHex, h);
    if !ok {
      return Blocked;
    }
    r := Judge(h.operations.value, h.fields["initial_value"]);
  }

  /** Distinct identifiers determine the order of the operations. */
  lemma NamesDetermine(ops: seq<Operation>, v: seq<Operation>, v': seq<Operation>)
    requires Distinct(Ids(ops)) && multiset(v) == multiset(ops) == multiset(v') && Ids(v) == Ids(v')
    ensures v == v'
  {
    assert |multiset(v)| == |v| && |multiset(v')| == |v'|;
    forall k | 0 <= k < |v| ensures v[k] == v'[k] {
      assert v[k] in multiset(v) && v'[k] in multiset(v');
      assert v[k] in ops && v'[k] in ops;
      var i :| 0 <= i < |ops| && ops[i] == v[k];
      var j :| 0 <= j < |ops| && ops[j] == v'[k];
      assert Ids(v)[k] == Ids(v')[k];
      assert Ids(ops)[i] == Ids(ops)[j];
    }
  }

  /** Within a valid history the reported identifiers name the operations uniquely. */
  lemma WitnessNamesOperations(isHex: string -> bool, h: RawHistory, v: seq<Operation>, v': seq<Operation>)
    requires ValidHistory(isHex, h)
    requires multiset(v) == multiset(AllTyped(h.operations.value)) == multiset(v')
    requires Ids(v) == Ids(v')
    ensures v == v'
  {
    IdsDiffer(h.operations.value);
    NamesDetermine(AllTyped(h.operations.value), v, v');
  }
}
