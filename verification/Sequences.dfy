/** Facts about finite sequences, sets and multisets shared by the other modules. */
module Sequences {

  datatype Option<+T> = None | Some(value: T)

  ghost predicate Distinct<T>(s: seq<T>) {
    forall i, j | 0 <= i < j < |s| :: s[i] != s[j]
  }

  ghost function Elements<T>(s: seq<T>): set<T> {
    set x | x in s
  }

  lemma {:induction false} DistinctCard<T>(s: seq<T>)
    requires Distinct(s)
    ensures |Elements(s)| == |s|
  {
    if s == [] {
      assert Elements(s) == {};
    } else {
      var t := s[1..];
      DistinctCard(t);
      assert Elements(s) == {s[0]} + Elements(t);
      assert s[0] !in Elements(t);
    }
  }

  lemma {:induction false} CardDistinct<T>(s: seq<T>)
    ensures |Elements(s)| <= |s|
    ensures |Elements(s)| == |s| ==> Distinct(s)
  {
    if s == [] {
      assert Elements(s) == {};
    } else {
      var t := s[1..];
      CardDistinct(t);
      assert Elements(s) == {s[0]} + Elements(t);
      if s[0] in t { assert Elements(s) == Elements(t); }
    }
  }

  /** The first `n` naturals. */
  function Below(n: nat): (r: set<nat>)
    ensures forall i: nat :: i in r <==> i < n
    ensures |r| == n
  {
    if n == 0 then {} else Below(n - 1) + {n - 1}
  }

  lemma {:induction false} SubsetCard<T>(a: set<T>, b: set<T>)
    requires a <= b
    ensures |a| <= |b|
  {
    assert b == a + (b - a);
  }

  lemma {:induction false} SubsetSameCard<T>(a: set<T>, b: set<T>)
    requires a <= b && |a| == |b|
    ensures a == b
  {
    assert b == a + (b - a);
    assert |b - a| == 0;
  }

  /** All entries of `w` are indices below `n`. */
  ghost predicate Indices(w: seq<nat>, n: nat) {
    forall k | 0 <= k < |w| :: w[k] < n
  }

  /** The sequence picked out of `s` by the indices in `w`. */
  function Pick<T>(s: seq<T>, w: seq<nat>): (r: seq<T>)
    requires Indices(w, |s|)
    ensures |r| == |w| && forall k | 0 <= k < |w| :: r[k] == s[w[k]]
  {
    seq(|w|, k requires 0 <= k < |w| => s[w[k]])
  }

  ghost predicate IsPermutation(w: seq<nat>, n: nat) {
    |w| == n && Distinct(w) && Indices(w, n)
  }

  lemma PermutationCovers(w: seq<nat>, n: nat)
    requires IsPermutation(w, n)
    ensures Elements(w) == Below(n)
  {
    DistinctCard(w);
    SubsetSameCard(Elements(w), Below(n));
  }

  /** `s` with the element at `k` taken out. */
  function Without<T>(s: seq<T>, k: nat): (r: seq<T>)
    requires k < |s|
    ensures |r| == |s| - 1
    ensures forall i | 0 <= i < |r| :: r[i] == if i < k then s[i] else s[i + 1]
  {
    s[..k] + s[k + 1..]
  }

  lemma WithoutMultiset<T>(s: seq<T>, k: nat)
    requires k < |s|
    ensures multiset(s) == multiset(Without(s, k)) + multiset{s[k]}
  {
    assert s == s[..k] + ([s[k]] + s[k + 1..]);
  }

  lemma WithoutLast(w: seq<nat>, k: nat)
    requires IsPermutation(w, |w|) && k < |w| && w[k] == |w| - 1
    ensures IsPermutation(Without(w, k), |w| - 1)
  {
    var r := Without(w, k);
    forall i | 0 <= i < |r| ensures r[i] < |w| - 1 {
      var j := if i < k then i else i + 1;
      assert r[i] == w[j] && j != k && w[j] < |w|;
      assert w[j] != w[k];
    }
    forall i, j | 0 <= i < j < |r| ensures r[i] != r[j] {
      var i', j' := if i < k then i else i + 1, if j < k then j else j + 1;
      assert r[i] == w[i'] && r[j] == w[j'] && i' < j';
    }
  }

  lemma PickWithout<T>(s: seq<T>, w: seq<nat>, k: nat)
    requires IsPermutation(w, |s|) && k < |s| && w[k] == |s| - 1
    ensures IsPermutation(Without(w, k), |s| - 1)
    ensures Pick(Without(s, |s| - 1), Without(w, k)) == Without(Pick(s, w), k)
  {
    WithoutLast(w, k);
  }

  lemma PickStep<T>(s: seq<T>, w: seq<nat>, k: nat)
    requires IsPermutation(w, |s|) && k < |s| && w[k] == |s| - 1
    requires multiset(Without(Pick(s, w), k)) == multiset(Without(s, |s| - 1))
    ensures multiset(Pick(s, w)) == multiset(s)
  {
    WithoutMultiset(Pick(s, w), k);
    WithoutMultiset(s, |s| - 1);
  }

  lemma PermutationHas(w: seq<nat>, n: nat, x: nat) returns (k: nat)
    requires IsPermutation(w, n) && x < n
    ensures k < n && w[k] == x
  {
    PermutationCovers(w, n);
    assert x in Elements(w);
    k :| k < n && w[k] == x;
  }

  /** Picking along a permutation only reorders. */
  lemma {:induction false} PickPermutes<T>(s: seq<T>, w: seq<nat>)
    requires IsPermutation(w, |s|)
    ensures multiset(Pick(s, w)) == multiset(s)
    decreases |s|
  {
    if s == [] {
      assert Pick(s, w) == [];
    } else {
      var k := PermutationHas(w, |s|, |s| - 1);
      PickWithout(s, w, k);
      PickPermutes(Without(s, |s| - 1), Without(w, k));
      PickStep(s, w, k);
    }
  }

  /** Indices of `Without(s, k)` as indices of `s`. */
  function Reindex(w: seq<nat>, k: nat): (r: seq<nat>)
    ensures |r| == |w|
    ensures forall i | 0 <= i < |w| :: r[i] == if w[i] < k then w[i] else w[i] + 1
  {
    seq(|w|, i requires 0 <= i < |w| => if w[i] < k then w[i] else w[i] + 1)
  }

  lemma ReindexPermutation(w: seq<nat>, k: nat)
    requires IsPermutation(w, |w|) && k <= |w|
    ensures IsPermutation([k] + Reindex(w, k), |w| + 1)
  {
  }

  /** Every reordering of `s` is picked by some permutation of its indices. */
  lemma {:induction false} PermutationOf<T>(s: seq<T>, v: seq<T>) returns (w: seq<nat>)
    requires multiset(v) == multiset(s)
    ensures IsPermutation(w, |s|)
    ensures Pick(s, w) == v
    decreases |s|
  {
    assert |multiset(v)| == |v| && |multiset(s)| == |s|;
    if s == [] {
      w := [];
    } else {
      assert v[0] in multiset(v);
      assert v[0] in s;
      var k :| 0 <= k < |s| && s[k] == v[0];
      WithoutMultiset(s, k);
      WithoutMultiset(v, 0);
      var s', v' := Without(s, k), Without(v, 0);
      assert multiset(v') == multiset(v) - multiset{v[0]};
      assert multiset(s') == multiset(s) - multiset{s[k]};
      var w' := PermutationOf(s', v');
      ReindexPermutation(w', k);
      w := [k] + Reindex(w', k);
      PickReindexed(s, k, w', v);
    }
  }

  lemma PickReindexed<T>(s: seq<T>, k: nat, w: seq<nat>, v: seq<T>)
    requires k < |s| && Indices(w, |s| - 1) && |v| == |w| + 1
    requires Pick(Without(s, k), w) == Without(v, 0) && s[k] == v[0]
    ensures Indices([k] + Reindex(w, k), |s|)
    ensures Pick(s, [k] + Reindex(w, k)) == v
  {
    var r := [k] + Reindex(w, k);
    forall i | 0 <= i < |r| ensures r[i] < |s| && s[r[i]] == v[i] {
      if i > 0 {
        assert r[i] == Reindex(w, k)[i - 1];
        assert w[i - 1] < |s| - 1;
        assert Pick(Without(s, k), w)[i - 1] == Without(v, 0)[i - 1];
      }
    }
  }

  lemma DistinctSnoc<T>(s: seq<T>, x: T)
    ensures Distinct(s + [x]) <==> Distinct(s) && x !in s
    ensures Elements(s + [x]) == Elements(s) + {x}
  {
    var t := s + [x];
    assert forall i | 0 <= i < |s| :: t[i] == s[i];
    assert t[|s|] == x;
    if Distinct(t) {
      forall i | 0 <= i < |s| ensures s[i] != x {
        assert t[i] != t[|s|];
      }
    }
  }

  lemma DistinctPrefix<T>(s: seq<T>, k: nat)
    requires k <= |s| && Distinct(s)
    ensures Distinct(s[..k])
  {
  }
}
