/** Pointer replacement as it is executed: a walk over a mutable document that ends in
    one assignment to a slot of a list or a dictionary. */
module DocumentStore {
  import opened Sequences
  import opened Json
  import opened JsonPointer
  import opened PointerReplacement

  type Ref = nat

  /** One Python object: a scalar, a list of references or a dictionary of references. */
  datatype Cell =
    | Leaf(value: Json)
    | ListCell(items: seq<Ref>)
    | ObjectCell(members: seq<(string, Ref)>)

  function Slots(c: Cell): nat {
    match c
    case Leaf(_) => 0
    case ListCell(items) => |items|
    case ObjectCell(members) => |members|
  }

  function Slot(c: Cell, i: nat): Ref
    requires i < Slots(c)
  {
    match c
    case ListCell(items) => items[i]
    case ObjectCell(members) => members[i].1
  }

  /** Assignment to one slot. */
  function Assign(c: Cell, i: nat, r: Ref): (e: Cell)
    requires i < Slots(c)
    ensures Slots(e) == Slots(c) && forall j | 0 <= j < Slots(c) :: Slot(e, j) == if j == i then r else Slot(c, j)
  {
    match c
    case ListCell(items) => ListCell(items[i := r])
    case ObjectCell(members) => ObjectCell(members[i := (members[i].0, r)])
  }

  type Cells = map<Ref, Cell>

  /** References lead from older to newer objects below `bound`. */
  ghost predicate Ordered(cells: Cells, bound: Ref) {
    && (forall r | r in cells :: r < bound)
    && (forall r, i | r in cells && 0 <= i < Slots(cells[r]) :: Slot(cells[r], i) in cells && r < Slot(cells[r], i))
    && (forall r | r in cells && cells[r].Leaf? :: IsScalar(cells[r].value))
  }

  /** No object is held by two slots. */
  ghost predicate Unshared(cells: Cells) {
    forall r, i, r', i' |
      && r in cells && 0 <= i < Slots(cells[r])
      && r' in cells && 0 <= i' < Slots(cells[r'])
      && Slot(cells[r], i) == Slot(cells[r'], i') :: r == r' && i == i'
  }

  /** The document that an object holds. */
  ghost function Value(cells: Cells, bound: Ref, r: Ref): Json
    requires Ordered(cells, bound) && r in cells
    decreases bound - r
  {
    match cells[r]
    case Leaf(value) => value
    case ListCell(items) => List(seq(|items|, i requires 0 <= i < |items| =>
        assert Slot(cells[r], i) == items[i]; Value(cells, bound, items[i])))
    case ObjectCell(members) => Object(seq(|members|, i requires 0 <= i < |members| =>
        assert Slot(cells[r], i) == members[i].1; (members[i].0, Value(cells, bound, members[i].1))))
  }

  lemma ValueKids(cells: Cells, bound: Ref, r: Ref)
    requires Ordered(cells, bound) && r in cells
    ensures Kids(Value(cells, bound, r)) == Slots(cells[r])
    ensures forall i | 0 <= i < Slots(cells[r]) ::
        Kid(Value(cells, bound, r), i) == Value(cells, bound, Slot(cells[r], i))
  {
  }

  // ----- subtrees

  /** `y` is `r` or held below it. */
  ghost predicate Below(cells: Cells, bound: Ref, r: Ref, y: Ref)
    requires Ordered(cells, bound) && r in cells
    decreases bound - r
  {
    y == r || exists i :: 0 <= i < Slots(cells[r]) && Below(cells, bound, Slot(cells[r], i), y)
  }

  lemma {:induction false} BelowIsNewer(cells: Cells, bound: Ref, r: Ref, y: Ref)
    requires Ordered(cells, bound) && r in cells && Below(cells, bound, r, y)
    ensures r <= y && y in cells
    decreases bound - r
  {
    if y != r {
      var i :| 0 <= i < Slots(cells[r]) && Below(cells, bound, Slot(cells[r], i), y);
      BelowIsNewer(cells, bound, Slot(cells[r], i), y);
    }
  }

  /** What is strictly below `r` is held by something below `r`. */
  lemma {:induction false} HolderBelow(cells: Cells, bound: Ref, r: Ref, y: Ref) returns (h: Ref, i: nat)
    requires Ordered(cells, bound) && r in cells && Below(cells, bound, r, y) && y != r
    ensures h in cells && Below(cells, bound, r, h) && i < Slots(cells[h]) && Slot(cells[h], i) == y && h < y
    decreases bound - r
  {
    var k :| 0 <= k < Slots(cells[r]) && Below(cells, bound, Slot(cells[r], k), y);
    var c := Slot(cells[r], k);
    if y == c {
      h, i := r, k;
    } else {
      h, i := HolderBelow(cells, bound, c, y);
    }
  }

  /** Two slots of one object lead to disjoint subtrees. */
  lemma {:induction false} SlotsDisjoint(cells: Cells, bound: Ref, r: Ref, i: nat, j: nat, y: Ref)
    requires Ordered(cells, bound) && Unshared(cells) && r in cells && i < Slots(cells[r]) && j < Slots(cells[r])
    requires Below(cells, bound, Slot(cells[r], i), y) && Below(cells, bound, Slot(cells[r], j), y)
    ensures i == j
    decreases y
  {
    var a, b := Slot(cells[r], i), Slot(cells[r], j);
    if y != a && y != b {
      var h, k := HolderBelow(cells, bound, a, y);
      var h', k' := HolderBelow(cells, bound, b, y);
      SlotsDisjoint(cells, bound, r, i, j, h);
    } else if y == a && y != b {
      var h, k := HolderBelow(cells, bound, b, y);
      BelowIsNewer(cells, bound, b, h);
    } else if y == b && y != a {
      var h, k := HolderBelow(cells, bound, a, y);
      BelowIsNewer(cells, bound, a, h);
    }
  }

  // ----- the effect of one assignment

  /** The cells after a new scalar object is put into slot `i` of `target`. */
  function Store(cells: Cells, bound: Ref, target: Ref, i: nat, r: Json): Cells
    requires target in cells && i < Slots(cells[target])
  {
    cells[bound := Leaf(r)][target := Assign(cells[target], i, bound)]
  }

  lemma StoreKeepsTree(cells: Cells, bound: Ref, target: Ref, i: nat, r: Json)
    requires Ordered(cells, bound) && Unshared(cells) && target in cells && i < Slots(cells[target]) && IsScalar(r)
    ensures Ordered(Store(cells, bound, target, i, r), bound + 1)
    ensures Unshared(Store(cells, bound, target, i, r))
  {
    var after := Store(cells, bound, target, i, r);
    forall q, k | q in after && 0 <= k < Slots(after[q])
      ensures Slot(after[q], k) in after && q < Slot(after[q], k)
      ensures (q == target && k == i) || (q in cells && k < Slots(cells[q]) && Slot(after[q], k) == Slot(cells[q], k))
    {
    }
  }

  /** Outside the subtrees that hold `target`, nothing changes. */
  lemma {:induction false} ValueElsewhere(cells: Cells, bound: Ref, target: Ref, i: nat, r: Json, x: Ref)
    requires Ordered(cells, bound) && Unshared(cells) && target in cells && i < Slots(cells[target]) && IsScalar(r)
    requires x in cells && !Below(cells, bound, x, target)
    requires Ordered(Store(cells, bound, target, i, r), bound + 1)
    ensures Value(Store(cells, bound, target, i, r), bound + 1, x) == Value(cells, bound, x)
    decreases bound - x
  {
    var after := Store(cells, bound, target, i, r);
    assert after[x] == cells[x];
    forall k | 0 <= k < Slots(cells[x])
      ensures Value(after, bound + 1, Slot(cells[x], k)) == Value(cells, bound, Slot(cells[x], k))
    {
      ValueElsewhere(cells, bound, target, i, r, Slot(cells[x], k));
    }
    ValueKids(cells, bound, x);
    ValueKids(after, bound + 1, x);
    SameDocument(Value(cells, bound, x), Value(after, bound + 1, x));
  }

  // ----- the walk

  /** Index of the slot that `part` designates. */
  function FindSlot(parseInt: ParseInt, c: Cell, part: string): (r: Option<nat>)
    ensures r.Some? ==> r.value < Slots(c)
  {
    match c
    case ObjectCell(members) => FindKey(members, part, 0)
    case ListCell(items) => ItemIndex(parseInt, |items|, part)
    case Leaf(_) => None
  }

  /** Slots and children are found alike. */
  lemma FindSlotSame(parseInt: ParseInt, cells: Cells, bound: Ref, r: Ref, part: string)
    requires Ordered(cells, bound) && r in cells
    ensures FindSlot(parseInt, cells[r], part) == Child(parseInt, Value(cells, bound, r), part)
  {
    if cells[r].ObjectCell? {
      FindKeySame(cells[r].members, Value(cells, bound, r).members, part, 0);
    }
  }

  /** Where the walk along all but the last part ends. */
  ghost function Walk(parseInt: ParseInt, cells: Cells, bound: Ref, r: Ref, parts: seq<string>): (t: Option<Ref>)
    requires Ordered(cells, bound) && r in cells && parts != []
    ensures t.Some? ==> t.value in cells
    decreases parts
  {
    if |parts| == 1 then Some(r)
    else match FindSlot(parseInt, cells[r], parts[0])
      case None => None
      case Some(i) => Walk(parseInt, cells, bound, Slot(cells[r], i), parts[1..])
  }

  lemma {:induction false} WalkIsBelow(parseInt: ParseInt, cells: Cells, bound: Ref, r: Ref, parts: seq<string>)
    requires Ordered(cells, bound) && r in cells && parts != [] && Walk(parseInt, cells, bound, r, parts).Some?
    ensures Below(cells, bound, r, Walk(parseInt, cells, bound, r, parts).value)
    decreases parts
  {
    if |parts| > 1 {
      var i := FindSlot(parseInt, cells[r], parts[0]).value;
      WalkIsBelow(parseInt, cells, bound, Slot(cells[r], i), parts[1..]);
    }
  }

  /** Nothing designated: the replacement leaves the document alone. */
  lemma {:induction false} WalkNowhere(parseInt: ParseInt, cells: Cells, bound: Ref, r: Ref, parts: seq<string>,
      d: Json)
    requires Ordered(cells, bound) && r in cells && parts != []
    requires var t := Walk(parseInt, cells, bound, r, parts);
             t.None? || FindSlot(parseInt, cells[t.value], parts[|parts| - 1]).None?
    ensures ReplaceAt(parseInt, Value(cells, bound, r), parts, d) == Value(cells, bound, r)
    decreases parts
  {
    FindSlotSame(parseInt, cells, bound, r, parts[0]);
    if |parts| > 1 {
      var slot := FindSlot(parseInt, cells[r], parts[0]);
      if slot.Some? {
        ValueKids(cells, bound, r);
        WalkNowhere(parseInt, cells, bound, Slot(cells[r], slot.value), parts[1..], d);
        WithKidSame(Value(cells, bound, r), slot.value);
      }
    }
  }

  /** Assigning the slot found at the end of the walk is the replacement on the document. */
  lemma {:induction false} WalkReplaces(parseInt: ParseInt, cells: Cells, bound: Ref, r: Ref, parts: seq<string>,
      d: Json)
    requires Ordered(cells, bound) && Unshared(cells) && r in cells && parts != [] && IsScalar(d)
    requires var t := Walk(parseInt, cells, bound, r, parts);
             t.Some? && FindSlot(parseInt, cells[t.value], parts[|parts| - 1]).Some?
    ensures var target := Walk(parseInt, cells, bound, r, parts).value;
            var slot := FindSlot(parseInt, cells[target], parts[|parts| - 1]).value;
            var after := Store(cells, bound, target, slot, d);
            && Ordered(after, bound + 1)
            && Value(after, bound + 1, r) == ReplaceAt(parseInt, Value(cells, bound, r), parts, d)
    decreases parts
  {
    var target := Walk(parseInt, cells, bound, r, parts).value;
    var slot := FindSlot(parseInt, cells[target], parts[|parts| - 1]).value;
    var after := Store(cells, bound, target, slot, d);
    StoreKeepsTree(cells, bound, target, slot, d);
    FindSlotSame(parseInt, cells, bound, r, parts[0]);
    var i := FindSlot(parseInt, cells[r], parts[0]).value;
    ValueKids(cells, bound, r);
    if |parts| > 1 {
      assert parts[1..][|parts| - 2] == parts[|parts| - 1];
      WalkReplaces(parseInt, cells, bound, Slot(cells[r], i), parts[1..], d);
      WalkIsBelow(parseInt, cells, bound, Slot(cells[r], i), parts[1..]);
      ReplaceBelow(cells, bound, target, slot, d, r, i,
          ReplaceAt(parseInt, Kid(Value(cells, bound, r), i), parts[1..], d));
    } else {
      ReplaceHere(cells, bound, r, i, d);
    }
  }

  /** The assignment seen from the object assigned to. */
  lemma ReplaceHere(cells: Cells, bound: Ref, r: Ref, i: nat, d: Json)
    requires Ordered(cells, bound) && Unshared(cells) && r in cells && i < Slots(cells[r]) && IsScalar(d)
    requires Ordered(Store(cells, bound, r, i, d), bound + 1) && i < Kids(Value(cells, bound, r))
    ensures Value(Store(cells, bound, r, i, d), bound + 1, r) == WithKid(Value(cells, bound, r), i, d)
  {
    var after := Store(cells, bound, r, i, d);
    assert Slot(after[r], i) == bound && Value(after, bound + 1, bound) == d;
    SlotChanges(cells, bound, r, i, d, r, i, d);
  }

  /** The assignment seen from an object above the one assigned to. */
  lemma ReplaceBelow(cells: Cells, bound: Ref, target: Ref, slot: nat, d: Json, r: Ref, i: nat, kid: Json)
    requires Ordered(cells, bound) && Unshared(cells) && target in cells && slot < Slots(cells[target]) && IsScalar(d)
    requires Ordered(Store(cells, bound, target, slot, d), bound + 1)
    requires r in cells && i < Slots(cells[r]) && i < Kids(Value(cells, bound, r))
    requires Below(cells, bound, Slot(cells[r], i), target)
    requires Value(Store(cells, bound, target, slot, d), bound + 1, Slot(cells[r], i)) == kid
    ensures Value(Store(cells, bound, target, slot, d), bound + 1, r) == WithKid(Value(cells, bound, r), i, kid)
  {
    BelowIsNewer(cells, bound, Slot(cells[r], i), target);
    assert Store(cells, bound, target, slot, d)[r] == cells[r];
    SlotChanges(cells, bound, target, slot, d, r, i, kid);
  }

  /** One level of the document after the assignment: slot `i` of `r` leads to `kid`, the others are as before. */
  lemma SlotChanges(cells: Cells, bound: Ref, target: Ref, slot: nat, d: Json, r: Ref, i: nat, kid: Json)
    requires Ordered(cells, bound) && Unshared(cells) && target in cells && slot < Slots(cells[target]) && IsScalar(d)
    requires Ordered(Store(cells, bound, target, slot, d), bound + 1)
    requires r in cells && i < Slots(cells[r]) && i < Kids(Value(cells, bound, r))
    requires (r == target && i == slot) || Below(cells, bound, Slot(cells[r], i), target)
    requires var after := Store(cells, bound, target, slot, d);
             Slots(after[r]) == Slots(cells[r]) && Value(after, bound + 1, Slot(after[r], i)) == kid
    ensures Value(Store(cells, bound, target, slot, d), bound + 1, r) == WithKid(Value(cells, bound, r), i, kid)
  {
    var after := Store(cells, bound, target, slot, d);
    forall k | 0 <= k < Slots(cells[r]) && k != i
      ensures Value(after, bound + 1, Slot(after[r], k)) == Value(cells, bound, Slot(cells[r], k))
    {
      OtherSlotKept(cells, bound, target, slot, d, r, i, k);
    }
    StoreSameSlots(cells, bound, target, slot, d, r, i);
    JoinLevel(cells, bound, after, bound + 1, r, i, kid);
  }

  lemma StoreSameSlots(cells: Cells, bound: Ref, target: Ref, slot: nat, d: Json, r: Ref, i: nat)
    requires Ordered(cells, bound) && target in cells && slot < Slots(cells[target])
    requires r in cells && i < Slots(cells[r])
    ensures r in Store(cells, bound, target, slot, d)
    ensures SameSlots(cells[r], Store(cells, bound, target, slot, d)[r])
  {
    assert r != bound;
  }

  lemma OtherSlotKept(cells: Cells, bound: Ref, target: Ref, slot: nat, d: Json, r: Ref, i: nat, k: nat)
    requires Ordered(cells, bound) && Unshared(cells) && target in cells && slot < Slots(cells[target]) && IsScalar(d)
    requires Ordered(Store(cells, bound, target, slot, d), bound + 1)
    requires r in cells && i < Slots(cells[r]) && k < Slots(cells[r]) && k != i
    requires (r == target && i == slot) || Below(cells, bound, Slot(cells[r], i), target)
    ensures var after := Store(cells, bound, target, slot, d);
            && Slot(after[r], k) == Slot(cells[r], k)
            && Value(after, bound + 1, Slot(after[r], k)) == Value(cells, bound, Slot(cells[r], k))
  {
    OtherSlotUnaffected(cells, bound, target, slot, r, i, k);
    ValueElsewhere(cells, bound, target, slot, d, Slot(cells[r], k));
  }

  lemma JoinLevel(cells: Cells, bound: Ref, after: Cells, bound': Ref, r: Ref, i: nat, kid: Json)
    requires Ordered(cells, bound) && Ordered(after, bound') && r in cells && r in after
    requires SameSlots(cells[r], after[r]) && i < Slots(cells[r]) && i < Kids(Value(cells, bound, r))
    requires Value(after, bound', Slot(after[r], i)) == kid
    requires forall k | 0 <= k < Slots(cells[r]) && k != i ::
               Value(after, bound', Slot(after[r], k)) == Value(cells, bound, Slot(cells[r], k))
    ensures Value(after, bound', r) == WithKid(Value(cells, bound, r), i, kid)
  {
    var d, e := Value(cells, bound, r), Value(after, bound', r);
    ValueKids(cells, bound, r);
    ValueKids(after, bound', r);
    SlotsShape(cells, bound, after, bound', r);
    WithKidShape(d, i, kid);
    SameDocument(e, WithKid(d, i, kid));
  }

  predicate SameSlots(c: Cell, e: Cell) {
    match (c, e)
    case (ListCell(items), ListCell(items')) => |items| == |items'|
    case (ObjectCell(members), ObjectCell(members')) =>
      |members| == |members'| && forall i | 0 <= i < |members| :: members[i].0 == members'[i].0
    case _ => false
  }

  lemma SlotsShape(cells: Cells, bound: Ref, after: Cells, bound': Ref, r: Ref)
    requires Ordered(cells, bound) && Ordered(after, bound') && r in cells && r in after
        && SameSlots(cells[r], after[r])
    ensures SameShape(Value(after, bound', r), Value(cells, bound, r))
  {
  }

  lemma OtherSlotUnaffected(cells: Cells, bound: Ref, target: Ref, slot: nat, r: Ref, i: nat, k: nat)
    requires Ordered(cells, bound) && Unshared(cells) && target in cells && slot < Slots(cells[target])
    requires r in cells && i < Slots(cells[r]) && k < Slots(cells[r]) && k != i
    requires (r == target && i == slot) || Below(cells, bound, Slot(cells[r], i), target)
    ensures !Below(cells, bound, Slot(cells[r], k), target)
    ensures r == target ==> i == slot
  {
    if Below(cells, bound, Slot(cells[r], i), target) {
      BelowIsNewer(cells, bound, Slot(cells[r], i), target);
      if Below(cells, bound, Slot(cells[r], k), target) { SlotsDisjoint(cells, bound, r, i, k, target); }
    } else if Below(cells, bound, Slot(cells[r], k), target) {
      BelowIsNewer(cells, bound, Slot(cells[r], k), target);
    }
  }

  class Document {
    const parseInt: ParseInt
    const root: Ref
    var cells: Cells
    var next: Ref

    constructor (parseInt: ParseInt, root: Ref, cells: Cells, next: Ref)
      requires Ordered(cells, next) && Unshared(cells) && root in cells
      ensures Valid() && this.parseInt == parseInt && this.root == root && this.cells == cells && this.next == next
    {
      this.parseInt, this.root, this.cells, this.next := parseInt, root, cells, next;
    }

    ghost predicate Valid()
      reads this
    {
      Ordered(cells, next) && Unshared(cells) && root in cells
    }

    ghost function Contents(): Json
      requires Valid()
      reads this
    {
      Value(cells, next, root)
    }

    /** Replaces what the pointer designates; false for the root pointer and for text that is no pointer. */
    method ReplacePointer(pointer: string, replacement: Json) returns (ok: bool)
      requires Valid() && IsScalar(replacement)
      modifies this`cells, this`next
      ensures Valid()
      ensures ok <==> IsPointer(pointer)
      ensures Contents() ==
                if ok then ReplaceAt(parseInt, old(Contents()), PathOf(pointer), replacement)
                else old(Contents())
      ensures ok ==> Replaced(parseInt, old(Contents()), PathOf(pointer), replacement, Contents())
    {
      ghost var before := Contents();
      ok := Follow(pointer, replacement);
      if ok { ReplaceDesignated(parseInt, before, PathOf(pointer), replacement); }
    }

    /** The walk to the last container and the assignment. */
    method Follow(pointer: string, replacement: Json) returns (ok: bool)
      requires Valid() && IsScalar(replacement)
      modifies this`cells, this`next
      ensures Valid()
      ensures ok <==> IsPointer(pointer)
      ensures Contents() ==
                if ok then ReplaceAt(parseInt, old(Contents()), PathOf(pointer), replacement)
                else old(Contents())
    {
      if pointer == "" || pointer[0] != '/' {
        return false;
      }
      var parts := Map(Unescape, Split(pointer[1..]));
      var current, k := root, 0;
      while k < |parts| - 1
        invariant 0 <= k < |parts| && current in cells
        invariant Walk(parseInt, cells, next, root, parts) == Walk(parseInt, cells, next, current, parts[k..])
      {
        assert parts[k..][0] == parts[k] && parts[k..][1..] == parts[k + 1..];
        var slot := FindSlot(parseInt, cells[current], parts[k]);
        if slot.None? {
          WalkNowhere(parseInt, cells, next, root, parts, replacement);
          return true;
        }
        current := Slot(cells[current], slot.value);
        k := k + 1;
      }
      AssignAt(current, parts[k], replacement, parts);
      return true;
    }

    /** The assignment at the end of the walk along `parts`. */
    method AssignAt(current: Ref, part: string, replacement: Json, ghost parts: seq<string>)
      requires Valid() && IsScalar(replacement) && current in cells && parts != [] && part == parts[|parts| - 1]
      requires Walk(parseInt, cells, next, root, parts) == Some(current)
      modifies this`cells, this`next
      ensures Valid()
      ensures Contents() == ReplaceAt(parseInt, old(Contents()), parts, replacement)
    {
      var slot := FindSlot(parseInt, cells[current], part);
      if slot.None? {
        WalkNowhere(parseInt, cells, next, root, parts, replacement);
      } else {
        WalkReplaces(parseInt, cells, next, root, parts, replacement);
        StoreKeepsTree(cells, next, current, slot.value, replacement);
        cells := cells[next := Leaf(replacement)][current := Assign(cells[current], slot.value, next)];
        next := next + 1;
      }
    }

    /** The loop over the pointers of a request; it stops at the first that is refused. */
    method ReplacePointers(pointers: seq<string>, replacement: Json) returns (ok: bool)
      requires Valid() && IsScalar(replacement)
      modifies this`cells, this`next
      ensures Valid()
      ensures ok <==> forall i | 0 <= i < |pointers| :: IsPointer(pointers[i])
      ensures ok ==> Contents() == ReplaceAll(parseInt, old(Contents()), Paths(pointers), replacement)
    {
      for k := 0 to |pointers|
        invariant Valid()
        invariant forall i | 0 <= i < k :: IsPointer(pointers[i])
        invariant Contents() == ReplaceAll(parseInt, old(Contents()), Paths(pointers[..k]), replacement)
      {
        ok := ReplacePointer(pointers[k], replacement);
        if !ok {
          return;
        }
        ReplaceAllSnoc(parseInt, old(Contents()), Paths(pointers[..k]), PathOf(pointers[k]), replacement);
        PathsSnoc(pointers, k);
      }
      ok := true;
      assert pointers[..|pointers|] == pointers;
    }
  }
}
