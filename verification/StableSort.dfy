/** The sort that arrays are put in order with. */
module StableSort {

  function Insert<T>(before: (T, T) -> bool, x: T, sorted: seq<T>): seq<T> {
    if sorted == [] || before(x, sorted[0]) then [x] + sorted
    else [sorted[0]] + Insert(before, x, sorted[1..])
  }

  /** A stable sort: `before` holds strictly. */
  function Sort<T>(before: (T, T) -> bool, items: seq<T>): seq<T> {
    if items == [] then []
    else Insert(before, items[|items| - 1], Sort(before, items[..|items| - 1]))
  }

  // ----- the sort keeps the items and puts them in order

  lemma {:induction false} InsertPermutes<T>(before: (T, T) -> bool, x: T, sorted: seq<T>)
    ensures multiset(Insert(before, x, sorted)) == multiset(sorted) + multiset{x}
  {
    if sorted != [] && !before(x, sorted[0]) {
      InsertPermutes(before, x, sorted[1..]);
      assert sorted == [sorted[0]] + sorted[1..];
    }
  }

  lemma {:induction false} SortPermutes<T>(before: (T, T) -> bool, items: seq<T>)
    ensures multiset(Sort(before, items)) == multiset(items)
  {
    if items != [] {
      SortPermutes(before, items[..|items| - 1]);
      InsertPermutes(before, items[|items| - 1], Sort(before, items[..|items| - 1]));
      assert items == items[..|items| - 1] + [items[|items| - 1]];
    }
  }

  /** `before` never holds both ways, and "not before" is transitive. */
  ghost predicate WeakOrder<T(!new)>(before: (T, T) -> bool) {
    && (forall x, y {:trigger before(x, y)} :: before(x, y) ==> !before(y, x))
    && (forall x, y, z {:trigger before(y, x), before(z, y)} :: !before(y, x) && !before(z, y) ==> !before(z, x))
  }

  ghost predicate Sorted<T>(before: (T, T) -> bool, s: seq<T>) {
    forall i, j | 0 <= i < j < |s| :: !before(s[j], s[i])
  }

  lemma {:induction false} InsertSorts<T(!new)>(before: (T, T) -> bool, x: T, sorted: seq<T>)
    requires WeakOrder(before) && Sorted(before, sorted)
    ensures Sorted(before, Insert(before, x, sorted))
    ensures forall y | y in Insert(before, x, sorted) :: y == x || y in sorted
  {
    if sorted == [] {
    } else if before(x, sorted[0]) {
      var s := [x] + sorted;
      forall j | 0 < j < |s| ensures !before(s[j], x) {
        assert !before(sorted[0], x);
        if j > 1 { assert !before(sorted[j - 1], sorted[0]); }
      }
    } else {
      var rest := sorted[1..];
      InsertSorts(before, x, rest);
      var inserted := Insert(before, x, rest);
      var s := [sorted[0]] + inserted;
      forall j | 0 < j < |s| ensures !before(s[j], s[0]) {
        assert inserted[j - 1] in inserted;
      }
    }
  }

  lemma {:induction false} SortSorts<T(!new)>(before: (T, T) -> bool, items: seq<T>)
    requires WeakOrder(before)
    ensures Sorted(before, Sort(before, items))
  {
    if items != [] {
      SortSorts(before, items[..|items| - 1]);
      InsertSorts(before, items[|items| - 1], Sort(before, items[..|items| - 1]));
    }
  }

  // ----- items that compare alike keep their order

  /** `sorted` has the items in order, those that compare alike in the order they had. */
  ghost predicate SortedFrom<T(!new)>(before: (T, T) -> bool, items: seq<T>, sorted: seq<T>) {
    && multiset(sorted) == multiset(items)
    && (WeakOrder(before) ==> Sorted(before, sorted) && forall x :: Tied(before, x, sorted) == Tied(before, x, items))
  }

  /** The items that `before` does not tell from `x`. */
  function Tied<T>(before: (T, T) -> bool, x: T, items: seq<T>): seq<T> {
    if items == [] then []
    else
      var n := |items| - 1;
      Tied(before, x, items[..n])
        + if !before(x, items[n]) && !before(items[n], x) then [items[n]] else []
  }

  lemma {:induction false} TiedConcat<T>(before: (T, T) -> bool, x: T, a: seq<T>, b: seq<T>)
    ensures Tied(before, x, a + b) == Tied(before, x, a) + Tied(before, x, b)
  {
    if b == [] {
      assert a + b == a;
    } else {
      var n := |b| - 1;
      assert (a + b)[..|a + b| - 1] == a + b[..n];
      TiedConcat(before, x, a, b[..n]);
    }
  }

  lemma {:induction false} NoneTied<T>(before: (T, T) -> bool, x: T, items: seq<T>)
    requires forall i | 0 <= i < |items| :: before(x, items[i]) || before(items[i], x)
    ensures Tied(before, x, items) == []
  {
    if items != [] { NoneTied(before, x, items[..|items| - 1]); }
  }

  /** An inserted item comes after those it is tied with. */
  lemma {:induction false} InsertTied<T(!new)>(before: (T, T) -> bool, y: T, sorted: seq<T>, x: T)
    requires WeakOrder(before) && Sorted(before, sorted)
    ensures Tied(before, x, Insert(before, y, sorted)) == Tied(before, x, sorted + [y])
  {
    if sorted == [] {
    } else if before(y, sorted[0]) {
      FirstTied(before, y, sorted, x);
    } else {
      var rest := sorted[1..];
      InsertTied(before, y, rest, x);
      TiedConcat(before, x, [sorted[0]], Insert(before, y, rest));
      assert sorted + [y] == [sorted[0]] + (rest + [y]);
      TiedConcat(before, x, [sorted[0]], rest + [y]);
    }
  }

  lemma FirstTied<T(!new)>(before: (T, T) -> bool, y: T, sorted: seq<T>, x: T)
    requires WeakOrder(before) && Sorted(before, sorted) && sorted != [] && before(y, sorted[0])
    ensures Tied(before, x, [y] + sorted) == Tied(before, x, sorted + [y])
  {
    TiedConcat(before, x, [y], sorted);
    TiedConcat(before, x, sorted, [y]);
    if !before(x, y) && !before(y, x) {
      forall i | 0 <= i < |sorted| ensures before(x, sorted[i]) || before(sorted[i], x) {
        assert i > 0 ==> !before(sorted[i], sorted[0]);
        BeforeTied(before, x, y, sorted[0], sorted[i]);
      }
      NoneTied(before, x, sorted);
    } else {
      NoneTied(before, x, [y]);
    }
  }

  lemma BeforeTied<T(!new)>(before: (T, T) -> bool, x: T, y: T, first: T, z: T)
    requires WeakOrder(before) && !before(x, y) && !before(y, x) && before(y, first)
    requires z == first || !before(z, first)
    ensures before(x, z) || before(z, x)
  {
    assert before(y, z);
  }

  lemma {:induction false} SortTied<T(!new)>(before: (T, T) -> bool, items: seq<T>, x: T)
    requires WeakOrder(before)
    ensures Tied(before, x, Sort(before, items)) == Tied(before, x, items)
  {
    if items != [] {
      var n := |items| - 1;
      var sorted := Sort(before, items[..n]);
      SortTied(before, items[..n], x);
      SortSorts(before, items[..n]);
      InsertTied(before, items[n], sorted, x);
      TiedConcat(before, x, sorted, [items[n]]);
      TiedConcat(before, x, items[..n], [items[n]]);
      assert items == items[..n] + [items[n]];
    }
  }

  lemma SortIsSortedFrom<T(!new)>(before: (T, T) -> bool, items: seq<T>)
    ensures SortedFrom(before, items, Sort(before, items))
  {
    SortPermutes(before, items);
    if WeakOrder(before) {
      SortSorts(before, items);
      forall x ensures Tied(before, x, Sort(before, items)) == Tied(before, x, items) { SortTied(before, items, x); }
    }
  }
}
