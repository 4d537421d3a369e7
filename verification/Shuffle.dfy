/** The generator object and its Fisher-Yates shuffle. */
module Shuffle {
  import opened Sequences
  import opened SplitMix

  function Swap<T>(s: seq<T>, i: nat, j: nat): (r: seq<T>)
    requires i < |s| && j < |s|
    ensures |r| == |s|
    ensures forall k | 0 <= k < |s| :: r[k] == if k == i then s[j] else if k == j then s[i] else s[k]
  {
    s[i := s[j]][j := s[i]]
  }

  /** `choices[i]` says which of the first i + 1 places is swapped with place i. */
  predicate Choices(choices: seq<nat>) {
    forall i | 0 <= i < |choices| :: choices[i] <= i
  }

  /** The swaps of a shuffle for places `index`, index - 1, .., 1. */
  function Swaps<T>(s: seq<T>, choices: seq<nat>, index: nat): (r: seq<T>)
    requires |choices| == |s| && Choices(choices)
    requires index < |s| || index == 0
    ensures |r| == |s|
    decreases index
  {
    if index == 0 then s else Swaps(Swap(s, index, choices[index]), choices, index - 1)
  }

  /** The choices made from a stream of draws numbered from 1, for a list of `length` places:
      place i is decided by draw number length - i. */
  function Drawn(draw: nat -> nat, length: nat): (r: seq<nat>)
    ensures |r| == length && Choices(r)
  {
    DrawnFor(draw, length, length)
  }

  /** The choices for the first `places` places. */
  function DrawnFor(draw: nat -> nat, length: nat, places: nat): (r: seq<nat>)
    requires places <= length
    ensures |r| == places && Choices(r)
  {
    if places == 0 then []
    else DrawnFor(draw, length, places - 1) + [draw(length - (places - 1)) % places]
  }

  lemma {:induction false} DrawnAt(draw: nat -> nat, length: nat, places: nat, i: nat)
    requires i < places <= length
    ensures DrawnFor(draw, length, places)[i] == draw(length - i) % (i + 1)
  {
    if i < places - 1 { DrawnAt(draw, length, places - 1, i); }
  }

  function Draws(state: nat): nat -> nat {
    n => Output(state, n)
  }

  /** The shuffle of `values` by a stream of draws. */
  function Shuffled<T>(values: seq<T>, draw: nat -> nat): (r: seq<T>)
    ensures |r| == |values|
  {
    if values == [] then [] else Swaps(values, Drawn(draw, |values|), |values| - 1)
  }

  /** These choices shuffle `s` into `target`. */
  ghost predicate Yields<T>(s: seq<T>, choices: seq<nat>, target: seq<T>)
    requires s != []
  {
    |choices| == |s| && Choices(choices) && Swaps(s, choices, |s| - 1) == target
  }

  /** The arrangements of a shuffle: entry k + 1 is entry k with place |s| - 1 - k exchanged for the place
      that `draw(k + 1)`, reduced to the places up to it, names. */
  ghost predicate Trace<T>(trace: seq<seq<T>>, s: seq<T>, draw: nat -> nat, target: seq<T>)
    requires s != []
  {
    && |trace| == |s| && trace[0] == s && trace[|s| - 1] == target
    && (forall k | 0 <= k < |s| :: |trace[k]| == |s|)
    && forall k | 0 <= k < |s| - 1 ::
         trace[k + 1] == Swap(trace[k], |s| - 1 - k, draw(k + 1) % (|s| - k))
  }

  /** What the shuffle of a list by a stream of draws is: the choices are the draws, and the element
      drawn first lands in the last place. */
  ghost predicate ShuffledBy<T(!new)>(values: seq<T>, draw: nat -> nat, result: seq<T>) {
    var n := |values|;
    && |result| == n
    && (n > 0 ==> result[n - 1] == values[draw(1) % n])
    && (n > 0 ==> exists choices :: Yields(values, choices, result)
                    && forall i | 0 <= i < n :: choices[i] == draw(n - i) % (i + 1))
    && (n > 0 ==> exists trace :: Trace(trace, values, draw, result))
  }

  lemma DrawStep(state: nat, n: nat)
    ensures Draws(state)(n + 1) == Mix(NextState(StateAfter(state, n)))
    ensures StateAfter(state, n + 1) == NextState(StateAfter(state, n))
  {
  }

  method Exchange<T>(items: array<T>, i: nat, j: nat)
    requires i < items.Length && j < items.Length
    modifies items
    ensures items[..] == Swap(old(items[..]), i, j)
  {
    items[i], items[j] := items[j], items[i];
  }

  class Generator {
    var state: nat

    constructor (seed: nat)
      requires seed < WORD
      ensures state == seed
    {
      state := seed;
    }

    method Next() returns (value: nat)
      modifies this
      ensures state == NextState(old(state)) && value == Mix(state)
    {
      state := (state + GAMMA) % WORD;
      value := Mix(state);
    }

    /** A shuffled copy of `values`. */
    method Shuffle(values: seq<int>) returns (result: seq<int>)
      modifies this
      ensures result == Shuffled(values, Draws(old(state)))
      ensures multiset(result) == multiset(values) && ShuffledBy(values, Draws(old(state)), result)
      ensures state == StateAfter(old(state), if |values| == 0 then 0 else |values| - 1)
    {
      var items := new int[|values|](i requires 0 <= i < |values| => values[i]);
      assert items[..] == values;
      ghost var seed := state;
      ShuffleInPlace(items);
      result := items[..];
      ShuffledPermutes(values, Draws(seed));
      ShuffledIsDrawn(values, Draws(seed));
    }

    /** One draw per place but the first, last place first. */
    method ShuffleInPlace(items: array<int>)
      modifies this, items
      ensures items[..] == Shuffled(old(items[..]), Draws(old(state)))
      ensures state == StateAfter(old(state), if items.Length == 0 then 0 else items.Length - 1)
    {
      ghost var seed, values, drawn := state, items[..], Drawn(Draws(state), items.Length);
      var index := items.Length - 1;
      while index > 0
        invariant index < items.Length && (items.Length > 0 ==> index >= 0)
        invariant items.Length > 0 ==> state == StateAfter(seed, items.Length - 1 - index)
        invariant items.Length > 0 ==> Swaps(items[..], drawn, index) == Swaps(values, drawn, items.Length - 1)
        invariant items.Length == 0 ==> state == seed
      {
        SwapPlace(items, index, seed, items.Length);
        index := index - 1;
      }
    }

    /** Decides place `index` with one draw. */
    method SwapPlace(items: array<int>, index: nat, ghost seed: nat, ghost length: nat)
      requires 0 < index < items.Length && items.Length == length
      requires state == StateAfter(seed, length - 1 - index)
      modifies this, items
      ensures state == StateAfter(seed, length - index)
      ensures items[..] == Swap(old(items[..]), index, Drawn(Draws(seed), length)[index])
    {
      DrawStep(seed, length - 1 - index);
      DrawnAt(Draws(seed), length, length, index);
      var value := Next();
      Exchange(items, index, value % (index + 1));
    }
  }

  /** A generator is made only from an unsigned 64-bit seed. */
  method MakeGenerator(seed: int) returns (r: Option<Generator>)
    ensures r.Some? <==> 0 <= seed < WORD
    ensures r.Some? ==> fresh(r.value) && r.value.state == seed
  {
    if !(0 <= seed < WORD) {
      return None;
    }
    var g := new Generator(seed);
    r := Some(g);
  }

  // ----- every shuffle is a permutation

  lemma SwapPermutes<T>(s: seq<T>, i: nat, j: nat)
    requires i < |s| && j < |s|
    ensures multiset(Swap(s, i, j)) == multiset(s)
  {
  }

  lemma {:induction false} SwapsPermute<T>(s: seq<T>, choices: seq<nat>, index: nat)
    requires |choices| == |s| && Choices(choices) && (index < |s| || index == 0)
    ensures multiset(Swaps(s, choices, index)) == multiset(s)
    decreases index
  {
    if index > 0 {
      SwapPermutes(s, index, choices[index]);
      SwapsPermute(Swap(s, index, choices[index]), choices, index - 1);
    }
  }

  lemma ShuffledPermutes<T>(values: seq<T>, draw: nat -> nat)
    ensures multiset(Shuffled(values, draw)) == multiset(values)
  {
    if values != [] { SwapsPermute(values, Drawn(draw, |values|), |values| - 1); }
  }

  // ----- every shuffle follows its draws

  /** The arrangements from place `index` down. */
  lemma {:induction false} SwapsTrace<T>(s: seq<T>, choices: seq<nat>, index: nat) returns (trace: seq<seq<T>>)
    requires |choices| == |s| && Choices(choices) && index < |s|
    ensures |trace| == index + 1 && trace[0] == s && trace[index] == Swaps(s, choices, index)
    ensures forall k | 0 <= k <= index :: |trace[k]| == |s|
    ensures forall k | 0 <= k < index :: trace[k + 1] == Swap(trace[k], index - k, choices[index - k])
    decreases index
  {
    if index == 0 {
      trace := [s];
    } else {
      var rest := SwapsTrace(Swap(s, index, choices[index]), choices, index - 1);
      trace := [s] + rest;
    }
  }

  /** The shuffle is the one its draws describe. */
  lemma ShuffledIsDrawn<T(!new)>(values: seq<T>, draw: nat -> nat)
    ensures ShuffledBy(values, draw, Shuffled(values, draw))
  {
    var n := |values|;
    if n > 0 {
      var choices := Drawn(draw, n);
      forall i | 0 <= i < n ensures choices[i] == draw(n - i) % (i + 1) { DrawnAt(draw, n, n, i); }
      assert Yields(values, choices, Shuffled(values, draw));
      if n > 1 {
        SwapsKeepHigh(Swap(values, n - 1, choices[n - 1]), choices, n - 2, n - 1);
      }
      var trace := SwapsTrace(values, choices, n - 1);
      assert Trace(trace, values, draw, Shuffled(values, draw));
    }
  }

  // ----- choices and permutations correspond one to one

  /** Places above `index` are final. */
  lemma {:induction false} SwapsKeepHigh<T>(s: seq<T>, choices: seq<nat>, index: nat, k: nat)
    requires |choices| == |s| && Choices(choices) && index < k < |s|
    ensures Swaps(s, choices, index)[k] == s[k]
    decreases index
  {
    if index > 0 {
      SwapsKeepHigh(Swap(s, index, choices[index]), choices, index - 1, k);
    }
  }

  /** Choices above `index` do not matter. */
  lemma {:induction false} SwapsIgnoreHigh<T>(s: seq<T>, choices: seq<nat>, choices': seq<nat>, index: nat)
    requires |choices| == |s| == |choices'| && Choices(choices) && Choices(choices') && (index < |s| || index == 0)
    requires forall i | 0 < i <= index && i < |s| :: choices[i] == choices'[i]
    ensures Swaps(s, choices, index) == Swaps(s, choices', index)
    decreases index
  {
    if index > 0 {
      SwapsIgnoreHigh(Swap(s, index, choices[index]), choices, choices', index - 1);
    }
  }

  lemma SwapDistinct<T>(s: seq<T>, i: nat, j: nat)
    requires i < |s| && j < |s| && Distinct(s)
    ensures Distinct(Swap(s, i, j))
  {
  }

  /** Different choices shuffle a list of distinct values differently. */
  lemma {:induction false} ChoicesDetermined<T>(s: seq<T>, choices: seq<nat>, choices': seq<nat>, index: nat)
    requires |choices| == |s| == |choices'| && Choices(choices) && Choices(choices') && index < |s| && Distinct(s)
    requires Swaps(s, choices, index) == Swaps(s, choices', index)
    ensures forall i | 0 <= i <= index :: choices[i] == choices'[i]
    decreases index
  {
    if index > 0 {
      var c, c' := choices[index], choices'[index];
      var t, t' := Swap(s, index, c), Swap(s, index, c');
      SwapsKeepHigh(t, choices, index - 1, index);
      SwapsKeepHigh(t', choices', index - 1, index);
      assert s[c] == t[index] == t'[index] == s[c'];
      SwapDistinct(s, index, c);
      ChoicesDetermined(t, choices, choices', index - 1);
    }
  }

  /** Every rearrangement of the first index + 1 places is reached by some choices. */
  lemma {:induction false} ChoicesReach<T>(s: seq<T>, target: seq<T>, index: nat) returns (choices: seq<nat>)
    requires index < |s| && multiset(target) == multiset(s) && |target| == |s|
    requires forall k | index < k < |s| :: target[k] == s[k]
    ensures |choices| == |s| && Choices(choices)
    ensures Swaps(s, choices, index) == target
    decreases index
  {
    if index == 0 {
      choices := seq(|s|, _ => 0);
      OneFreePlace(s, target);
    } else {
      var c := FindAmongFirst(s, target, index);
      var t := Swap(s, index, c);
      SwapPermutes(s, index, c);
      var rest := ChoicesReach(t, target, index - 1);
      choices := rest[index := c];
      SwapsIgnoreHigh(t, choices, rest, index - 1);
    }
  }

  lemma HighPartsAgree<T>(s: seq<T>, target: seq<T>, n: nat)
    requires n <= |s| == |target| && multiset(target) == multiset(s)
    requires forall k | n <= k < |s| :: target[k] == s[k]
    ensures multiset(target[..n]) == multiset(s[..n])
  {
    assert s[n..] == target[n..];
    assert s == s[..n] + s[n..] && target == target[..n] + target[n..];
    assert multiset(s[..n]) == multiset(s) - multiset(s[n..]);
    assert multiset(target[..n]) == multiset(target) - multiset(target[n..]);
  }

  lemma OneFreePlace<T>(s: seq<T>, target: seq<T>)
    requires s != [] && |target| == |s| && multiset(target) == multiset(s)
    requires forall k | 0 < k < |s| :: target[k] == s[k]
    ensures s == target
  {
    HighPartsAgree(s, target, 1);
    assert s[..1] == [s[0]] && target[..1] == [target[0]];
    assert s[0] in multiset(target[..1]);
  }

  lemma FindAmongFirst<T>(s: seq<T>, target: seq<T>, index: nat) returns (c: nat)
    requires index < |s| == |target| && multiset(target) == multiset(s)
    requires forall k | index < k < |s| :: target[k] == s[k]
    ensures c <= index && s[c] == target[index]
  {
    HighPartsAgree(s, target, index + 1);
    assert target[index] in target[..index + 1];
    assert target[index] in multiset(s[..index + 1]);
    c :| 0 <= c <= index && s[..index + 1][c] == target[index];
  }

  /** Shuffling distinct values: each rearrangement comes from exactly one choice sequence
      (the first place has no choice). */
  lemma ShuffleIsBijection<T>(s: seq<T>, target: seq<T>)
    requires Distinct(s) && s != [] && multiset(target) == multiset(s)
    ensures exists choices :: Yields(s, choices, target)
    ensures forall choices, choices' | Yields(s, choices, target) && Yields(s, choices', target) :: choices == choices'
  {
    assert |multiset(target)| == |target| && |multiset(s)| == |s|;
    var found := ChoicesReach(s, target, |s| - 1);
    assert Yields(s, found, target);
    forall choices, choices' | Yields(s, choices, target) && Yields(s, choices', target) ensures choices == choices' {
      ChoicesDetermined(s, choices, choices', |s| - 1);
    }
  }
}
