/** The backtracking search over bit masks of remaining operations. */
module BacktrackingSearch {
  import opened Bits
  import opened Sequences
  import opened RegisterSpec

  /** `predecessors[j]` has bit `i` exactly when operation `i` must come before `j`. */
  ghost predicate Predecessors(ops: seq<Operation>, preds: seq<nat>) {
    && |preds| == |ops|
    && forall i: nat, j {:trigger Bit(preds[j], i)} | 0 <= j < |ops| ::
         Bit(preds[j], i) <==> i < |ops| && i != j && Before(ops[i], ops[j])
  }

  function MaskSet(mask: nat, n: nat): set<nat> {
    set i | i in Below(n) && Bit(mask, i)
  }

  /** The guards of one loop iteration: `index` remains, nothing remaining precedes it, and its output fits. */
  predicate Eligible(ops: seq<Operation>, preds: seq<nat>, remaining: nat, state: Value, index: nat)
    requires index < |ops| == |preds|
  {
    && And(remaining, Pow2(index)) != 0
    && And(preds[index], remaining) == 0
    && Admissible(ops[index], state)
  }

  lemma AndNonZero(a: nat, b: nat)
    ensures And(a, b) != 0 <==> exists i: nat :: Bit(a, i) && Bit(b, i)
  {
    if And(a, b) != 0 {
      var i := SomeBit(And(a, b));
      AndBit(a, b, i);
    }
    if i: nat :| Bit(a, i) && Bit(b, i) {
      AndBit(a, b, i);
      ZeroHasNoBits(i);
    }
  }

  lemma Remaining(mask: nat, index: nat)
    ensures And(mask, Pow2(index)) != 0 <==> Bit(mask, index)
    ensures Bit(mask, index) ==> Xor(mask, Pow2(index)) < mask
  {
    AndNonZero(mask, Pow2(index));
    Pow2Bit(index, index);
    forall i: nat | Bit(Pow2(index), i) ensures i == index {
      Pow2Bit(index, i);
    }
    if Bit(mask, index) { ClearBit(mask, index); }
  }

  /** The recursion without its cache. */
  function Search(ops: seq<Operation>, preds: seq<nat>, remaining: nat, state: Value): Option<seq<nat>>
    requires |ops| == |preds|
    decreases remaining, |ops| + 1
  {
    if remaining == 0 then Some([]) else Scan(ops, preds, remaining, state, 0)
  }

  /** The loop of `Search` from `index` on. */
  function Scan(ops: seq<Operation>, preds: seq<nat>, remaining: nat, state: Value, index: nat): Option<seq<nat>>
    requires |ops| == |preds| && index <= |ops|
    decreases remaining, |ops| - index
  {
    if index == |ops| then None
    else if !Eligible(ops, preds, remaining, state, index) then Scan(ops, preds, remaining, state, index + 1)
    else
      Remaining(remaining, index);
      match Search(ops, preds, Xor(remaining, Pow2(index)), After(ops[index], state))
      case Some(suffix) => Some([index] + suffix)
      case None => Scan(ops, preds, remaining, state, index + 1)
  }

  // ----- masks as sets

  lemma MaskEmpty(mask: nat, n: nat)
    requires mask < Pow2(n)
    ensures mask == 0 <==> MaskSet(mask, n) == {}
  {
    if mask != 0 {
      var i := SomeBit(mask);
      if i >= n { HighBitsClear(mask, n, i); }
      assert i in MaskSet(mask, n);
    } else {
      forall i: nat ensures !Bit(mask, i) { ZeroHasNoBits(i); }
    }
  }

  lemma MaskRemove(mask: nat, n: nat, index: nat)
    requires mask < Pow2(n) && index < n && Bit(mask, index)
    ensures Xor(mask, Pow2(index)) < Pow2(n)
    ensures MaskSet(Xor(mask, Pow2(index)), n) == MaskSet(mask, n) - {index}
  {
    ClearBit(mask, index);
    forall i: nat ensures Bit(Xor(mask, Pow2(index)), i) <==> Bit(mask, i) && i != index {
      XorBit(mask, Pow2(index), i);
      Pow2Bit(index, i);
    }
  }

  lemma MaskFull(n: nat)
    ensures MaskSet(Pow2(n) - 1, n) == Below(n)
  {
    var full := Pow2(n) - 1;
    forall i: nat ensures Bit(full, i) <==> i < n { FullMaskBit(n, i); }
  }

  lemma EligibleMeaning(ops: seq<Operation>, preds: seq<nat>, remaining: nat, state: Value, index: nat)
    requires Predecessors(ops, preds) && index < |ops|
    ensures Eligible(ops, preds, remaining, state, index) <==>
              var todo := MaskSet(remaining, |ops|);
              index in todo && Unblocked(ops, todo, index) && Admissible(ops[index], state)
  {
    Remaining(remaining, index);
    AndNonZero(preds[index], remaining);
    var todo := MaskSet(remaining, |ops|);
    if And(preds[index], remaining) == 0 {
      forall j | j in todo && j < |ops| && j != index ensures !Before(ops[j], ops[index]) {
        assert Bit(remaining, j);
        assert !Bit(preds[index], j);
      }
    } else {
      var j: nat :| Bit(preds[index], j) && Bit(remaining, j);
      assert Bit(preds[index], j);
      assert j < |ops| && j in Below(|ops|);
      assert j in todo && j != index && Before(ops[j], ops[index]);
    }
  }

  // ----- the search decides, and finds the least witness

  /** Lexicographic order on index sequences. */
  predicate LexLeq(a: seq<nat>, b: seq<nat>) {
    a == [] || (b != [] && (a[0] < b[0] || (a[0] == b[0] && LexLeq(a[1..], b[1..]))))
  }

  /** The first place where two sequences differ decides; a prefix comes first. */
  lemma {:induction false} LexMeans(a: seq<nat>, b: seq<nat>)
    ensures LexLeq(a, b) <==> a <= b || exists k :: 0 <= k < |a| && k < |b| && a[..k] == b[..k] && a[k] < b[k]
    decreases |a|
  {
    if a != [] && b != [] && a[0] == b[0] {
      LexMeans(a[1..], b[1..]);
      assert a == [a[0]] + a[1..] && b == [b[0]] + b[1..];
      if k :| 0 <= k < |a[1..]| && k < |b[1..]| && a[1..][..k] == b[1..][..k] && a[1..][k] < b[1..][k] {
        assert a[..k + 1] == [a[0]] + a[1..][..k] && b[..k + 1] == [b[0]] + b[1..][..k];
        assert a[k + 1] < b[k + 1];
      }
      if k :| 0 <= k < |a| && k < |b| && a[..k] == b[..k] && a[k] < b[k] {
        assert a[1..][..k - 1] == a[..k][1..] && b[1..][..k - 1] == b[..k][1..];
        assert a[1..][k - 1] < b[1..][k - 1];
      }
    } else if a != [] && b != [] && a[0] < b[0] {
      assert a[..0] == b[..0];
    } else if a != [] && b != [] {
      forall k | 0 < k < |a| && k < |b| ensures a[..k] != b[..k] {
        assert a[..k][0] == a[0] && b[..k][0] == b[0];
      }
    }
  }

  /** `r` is the least ordering of `todo` whose first index is at least `from`, if there is one. */
  ghost predicate LeastFrom(ops: seq<Operation>, todo: set<nat>, state: Value, from: nat, r: Option<seq<nat>>) {
    match r
    case Some(w) =>
      && Orders(ops, todo, state, w) && w != [] && w[0] >= from
      && forall v | Orders(ops, todo, state, v) && v != [] && v[0] >= from :: LexLeq(w, v)
    case None =>
      forall v | Orders(ops, todo, state, v) && v != [] :: v[0] < from
  }

  /** `r` is the lexicographically least ordering of `todo`, or None when there is none. */
  ghost predicate Least(ops: seq<Operation>, todo: set<nat>, state: Value, r: Option<seq<nat>>) {
    match r
    case Some(w) => Orders(ops, todo, state, w) && forall v | Orders(ops, todo, state, v) :: LexLeq(w, v)
    case None => forall v :: !Orders(ops, todo, state, v)
  }

  lemma {:induction false} SearchIsLeast(ops: seq<Operation>, preds: seq<nat>, remaining: nat, state: Value)
    requires Predecessors(ops, preds) && remaining < Pow2(|ops|)
    ensures Least(ops, MaskSet(remaining, |ops|), state, Search(ops, preds, remaining, state))
    decreases remaining, |ops| + 1
  {
    var todo := MaskSet(remaining, |ops|);
    MaskEmpty(remaining, |ops|);
    if remaining == 0 {
      assert Orders(ops, todo, state, []);
    } else {
      ScanIsLeast(ops, preds, remaining, state, 0);
      forall v | Orders(ops, todo, state, v) ensures v != [] {
        assert v == [] ==> Elements(v) == {};
      }
    }
  }

  lemma {:induction false} ScanIsLeast(ops: seq<Operation>, preds: seq<nat>, remaining: nat, state: Value, index: nat)
    requires Predecessors(ops, preds) && 0 < remaining < Pow2(|ops|) && index <= |ops|
    ensures LeastFrom(ops, MaskSet(remaining, |ops|), state, index, Scan(ops, preds, remaining, state, index))
    decreases remaining, |ops| - index
  {
    var todo := MaskSet(remaining, |ops|);
    if index == |ops| {
      forall v | Orders(ops, todo, state, v) && v != [] ensures v[0] < index {
        OrdersTail(ops, todo, state, v);
      }
    } else {
      EligibleMeaning(ops, preds, remaining, state, index);
      ScanIsLeast(ops, preds, remaining, state, index + 1);
      if !Eligible(ops, preds, remaining, state, index) {
        NoneStartsAt(ops, todo, state, index);
      } else {
        Remaining(remaining, index);
        MaskRemove(remaining, |ops|, index);
        var rest, next := Xor(remaining, Pow2(index)), After(ops[index], state);
        SearchIsLeast(ops, preds, rest, next);
        match Search(ops, preds, rest, next)
        case None => NoneStartsAtDeadEnd(ops, todo, state, index);
        case Some(suffix) => LeastStartsAt(ops, todo, state, index, suffix);
      }
    }
  }

  lemma NoneStartsAt(ops: seq<Operation>, todo: set<nat>, state: Value, index: nat)
    requires index < |ops|
    requires !(index in todo && Unblocked(ops, todo, index) && Admissible(ops[index], state))
    ensures forall v | Orders(ops, todo, state, v) && v != [] :: v[0] != index
  {
    forall v | Orders(ops, todo, state, v) && v != [] ensures v[0] != index {
      OrdersTail(ops, todo, state, v);
    }
  }

  lemma NoneStartsAtDeadEnd(ops: seq<Operation>, todo: set<nat>, state: Value, index: nat)
    requires index < |ops|
    requires forall v :: !Orders(ops, todo - {index}, After(ops[index], state), v)
    ensures forall v | Orders(ops, todo, state, v) && v != [] :: v[0] != index
  {
    forall v | Orders(ops, todo, state, v) && v != [] ensures v[0] != index {
      OrdersTail(ops, todo, state, v);
    }
  }

  lemma LeastStartsAt(ops: seq<Operation>, todo: set<nat>, state: Value, index: nat, suffix: seq<nat>)
    requires index < |ops| && index in todo && Unblocked(ops, todo, index) && Admissible(ops[index], state)
    requires Least(ops, todo - {index}, After(ops[index], state), Some(suffix))
    ensures LeastFrom(ops, todo, state, index, Some([index] + suffix))
  {
    OrdersCons(ops, todo, state, index, suffix);
    var w := [index] + suffix;
    forall v | Orders(ops, todo, state, v) && v != [] && v[0] >= index ensures LexLeq(w, v) {
      OrdersTail(ops, todo, state, v);
      assert w[1..] == suffix;
      if v[0] == index { assert LexLeq(suffix, v[1..]); }
    }
  }
}
