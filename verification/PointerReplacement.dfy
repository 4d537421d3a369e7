/** Normalization of a response by replacing what JSON Pointers designate. */
module PointerReplacement {
  import opened Sequences
  import opened Json
  import opened JsonPointer

  /** Python's `int(text)`: a number, or None for ValueError. */
  type ParseInt = string -> Option<int>

  /** First index of `key` among the members from `from` on. */
  function FindKey<V>(members: seq<(string, V)>, key: string, from: nat): (r: Option<nat>)
    requires from <= |members|
    ensures r.Some? ==> from <= r.value < |members|
    decreases |members| - from
  {
    if from == |members| then None
    else if members[from].0 == key then Some(from)
    else FindKey(members, key, from + 1)
  }

  /** Index of the item of a list that `part` designates, counted from either end. */
  function ItemIndex(parseInt: ParseInt, length: nat, part: string): (r: Option<nat>)
    ensures r.Some? ==> r.value < length
  {
    match parseInt(part)
    case Some(i) => if 0 <= i < length then Some(i) else if i < 0 <= i + length then Some(i + length) else None
    case None => None
  }

  /** Index of the child that `part` designates: an object member, or a list item counted
      from either end. */
  function Child(parseInt: ParseInt, d: Json, part: string): (r: Option<nat>)
    ensures r.Some? ==> r.value < Kids(d)
  {
    match d
    case Object(members) => FindKey(members, part, 0)
    case List(items) => ItemIndex(parseInt, |items|, part)
    case _ => None
  }

  /** The document after replacing what `parts` designate; unchanged when that is nothing. */
  function ReplaceAt(parseInt: ParseInt, d: Json, parts: seq<string>, r: Json): Json
    requires parts != []
    decreases parts
  {
    match Child(parseInt, d, parts[0])
    case None => d
    case Some(i) => WithKid(d, i, if |parts| == 1 then r else ReplaceAt(parseInt, Kid(d, i), parts[1..], r))
  }

  /** The child indices leading to what `parts` designate. */
  function Resolve(parseInt: ParseInt, d: Json, parts: seq<string>): Option<seq<nat>>
    decreases parts
  {
    if parts == [] then Some([])
    else match Child(parseInt, d, parts[0])
      case None => None
      case Some(i) =>
        match Resolve(parseInt, Kid(d, i), parts[1..])
        case None => None
        case Some(rest) => Some([i] + rest)
  }

  /** The node at a location. */
  function At(d: Json, location: seq<nat>): Option<Json>
    decreases location
  {
    if location == [] then Some(d)
    else if location[0] >= Kids(d) then None
    else At(Kid(d, location[0]), location[1..])
  }

  // ----- what a path designates

  /** Child `i` of `node` is what `part` names: the first member with that key, or the item with that
      number, counted from either end. */
  predicate Names(parseInt: ParseInt, node: Json, part: string, i: nat) {
    match node
    case Object(members) =>
      i < |members| && members[i].0 == part && forall j | 0 <= j < i :: members[j].0 != part
    case List(items) =>
      i < |items| && (parseInt(part) == Some(i) || parseInt(part) == Some(i - |items|))
    case _ => false
  }

  /** Each part of the path names the next step of the location. */
  predicate Designates(parseInt: ParseInt, d: Json, parts: seq<string>, location: seq<nat>) {
    && |location| == |parts|
    && forall k | 0 <= k < |parts| ::
         var node := At(d, location[..k]);
         node.Some? && Names(parseInt, node.value, parts[k], location[k])
  }

  lemma {:induction false} FindKeyIsFirst<V>(members: seq<(string, V)>, key: string, from: nat, i: nat)
    requires from <= |members|
    ensures FindKey(members, key, from) == Some(i) <==>
            from <= i < |members| && members[i].0 == key && forall j | from <= j < i :: members[j].0 != key
    decreases |members| - from
  {
    if from < |members| && members[from].0 != key { FindKeyIsFirst(members, key, from + 1, i); }
  }

  lemma ChildIsNamed(parseInt: ParseInt, d: Json, part: string, i: nat)
    ensures Child(parseInt, d, part) == Some(i) <==> Names(parseInt, d, part, i)
  {
    if d.Object? { FindKeyIsFirst(d.members, part, 0, i); }
  }

  lemma DesignatesStep(parseInt: ParseInt, d: Json, parts: seq<string>, location: seq<nat>)
    requires parts != []
    ensures Designates(parseInt, d, parts, location) <==>
            && location != [] && Names(parseInt, d, parts[0], location[0])
            && Designates(parseInt, Kid(d, location[0]), parts[1..], location[1..])
  {
    if location != [] && Names(parseInt, d, parts[0], location[0]) {
      forall k | 0 <= k < |location| - 1
        ensures At(d, location[..k + 1]) == At(Kid(d, location[0]), location[1..][..k])
      {
        assert location[..k + 1][1..] == location[1..][..k];
      }
      if Designates(parseInt, d, parts, location) {
        forall k | 0 <= k < |parts[1..]|
          ensures var node := At(Kid(d, location[0]), location[1..][..k]);
                  node.Some? && Names(parseInt, node.value, parts[1..][k], location[1..][k])
        {
          assert At(d, location[..k + 1]).Some?;
        }
      }
      if Designates(parseInt, Kid(d, location[0]), parts[1..], location[1..]) {
        forall k | 0 <= k < |parts|
          ensures var node := At(d, location[..k]);
                  node.Some? && Names(parseInt, node.value, parts[k], location[k])
        {
          if k > 0 { assert At(Kid(d, location[0]), location[1..][..k - 1]).Some?; }
        }
      }
    } else if |location| == |parts| {
      assert At(d, location[..0]) == Some(d);
    }
  }

  /** A path resolves to a location exactly when it designates it. */
  lemma {:induction false} ResolveMeans(parseInt: ParseInt, d: Json, parts: seq<string>, location: seq<nat>)
    ensures Resolve(parseInt, d, parts) == Some(location) <==> Designates(parseInt, d, parts, location)
    decreases parts
  {
    if parts != [] {
      DesignatesStep(parseInt, d, parts, location);
      if location != [] {
        ChildIsNamed(parseInt, d, parts[0], location[0]);
        if Names(parseInt, d, parts[0], location[0]) {
          ResolveMeans(parseInt, Kid(d, location[0]), parts[1..], location[1..]);
          assert location == [location[0]] + location[1..];
        }
      }
    }
  }

  // ----- a replacement keeps every name meaning the same child

  lemma {:induction false} FindKeySame<V, W>(members: seq<(string, V)>, members': seq<(string, W)>, key: string,
      from: nat)
    requires |members| == |members'| && (forall i | 0 <= i < |members| :: members[i].0 == members'[i].0)
        && from <= |members|
    ensures FindKey(members, key, from) == FindKey(members', key, from)
    decreases |members| - from
  {
    if from < |members| { FindKeySame(members, members', key, from + 1); }
  }

  lemma ChildSame(parseInt: ParseInt, d: Json, e: Json, part: string)
    requires SameShape(d, e)
    ensures Child(parseInt, d, part) == Child(parseInt, e, part)
  {
    if d.Object? { FindKeySame(d.members, e.members, part, 0); }
  }

  lemma WithKidShape(d: Json, i: nat, kid: Json)
    requires i < Kids(d)
    ensures SameShape(d, WithKid(d, i, kid)) && SameShape(WithKid(d, i, kid), d)
  {
  }

  lemma ReplaceShape(parseInt: ParseInt, d: Json, parts: seq<string>, r: Json)
    requires parts != []
    ensures SameShape(d, ReplaceAt(parseInt, d, parts, r))
  {
    match Child(parseInt, d, parts[0])
    case None =>
    case Some(i) => WithKidShape(d, i, if |parts| == 1 then r else ReplaceAt(parseInt, Kid(d, i), parts[1..], r));
  }

  lemma WithKidTwice(d: Json, i: nat, a: Json, j: nat, b: Json)
    requires i < Kids(d) && j < Kids(d)
    ensures i != j ==> WithKid(WithKid(d, i, a), j, b) == WithKid(WithKid(d, j, b), i, a)
    ensures i == j ==> WithKid(WithKid(d, i, a), j, b) == WithKid(d, j, b)
  {
    match d
    case List(items) =>
      assert i != j ==> items[i := a][j := b] == items[j := b][i := a];
      assert i == j ==> items[i := a][j := b] == items[j := b];
    case Object(members) =>
      var x, y := (members[i].0, a), (members[j].0, b);
      assert i != j ==> members[i := x][j := y] == members[j := y][i := x];
      assert i == j ==> members[i := x][j := y] == members[j := y];
    case _ =>
  }

  // ----- replacements by a scalar commute and are idempotent

  /** What a replacement puts in place of a child. */
  function NewKid(parseInt: ParseInt, kid: Json, parts: seq<string>, r: Json): Json
    requires parts != []
  {
    if |parts| == 1 then r else ReplaceAt(parseInt, kid, parts[1..], r)
  }

  lemma ScalarStays(parseInt: ParseInt, d: Json, parts: seq<string>, r: Json)
    requires IsScalar(d) && parts != []
    ensures ReplaceAt(parseInt, d, parts, r) == d
  {
  }

  lemma {:induction false} ReplaceCommutes(parseInt: ParseInt, d: Json, p: seq<string>, q: seq<string>, r: Json)
    requires p != [] && q != [] && IsScalar(r)
    ensures ReplaceAt(parseInt, ReplaceAt(parseInt, d, p, r), q, r) ==
        ReplaceAt(parseInt, ReplaceAt(parseInt, d, q, r), p, r)
    decreases |p| + |q|
  {
    var a, b := ReplaceAt(parseInt, d, p, r), ReplaceAt(parseInt, d, q, r);
    ReplaceShape(parseInt, d, p, r);
    ReplaceShape(parseInt, d, q, r);
    ChildSame(parseInt, d, a, q[0]);
    ChildSame(parseInt, d, b, p[0]);
    match (Child(parseInt, d, p[0]), Child(parseInt, d, q[0]))
    case (Some(i), Some(j)) =>
      var x, y := NewKid(parseInt, Kid(d, i), p, r), NewKid(parseInt, Kid(d, j), q, r);
      var x', y' := NewKid(parseInt, Kid(b, i), p, r), NewKid(parseInt, Kid(a, j), q, r);
      if i == j {
        KidsCommute(parseInt, Kid(d, i), p, q, r);
      }
      WithKidTwice(d, i, x, j, y');
      WithKidTwice(d, j, y, i, x');
    case _ =>
  }

  lemma KidsCommute(parseInt: ParseInt, kid: Json, p: seq<string>, q: seq<string>, r: Json)
    requires p != [] && q != [] && IsScalar(r)
    ensures NewKid(parseInt, NewKid(parseInt, kid, p, r), q, r) == NewKid(parseInt, NewKid(parseInt, kid, q, r), p, r)
    decreases |p| + |q|, 0
  {
    if |p| > 1 && |q| > 1 {
      ReplaceCommutes(parseInt, kid, p[1..], q[1..], r);
    } else if |p| > 1 {
      ScalarStays(parseInt, r, p[1..], r);
    } else if |q| > 1 {
      ScalarStays(parseInt, r, q[1..], r);
    }
  }

  lemma {:induction false} ReplaceTwice(parseInt: ParseInt, d: Json, p: seq<string>, r: Json)
    requires p != []
    ensures ReplaceAt(parseInt, ReplaceAt(parseInt, d, p, r), p, r) == ReplaceAt(parseInt, d, p, r)
    decreases p
  {
    var a := ReplaceAt(parseInt, d, p, r);
    ReplaceShape(parseInt, d, p, r);
    ChildSame(parseInt, d, a, p[0]);
    match Child(parseInt, d, p[0])
    case None =>
    case Some(i) =>
      if |p| > 1 { ReplaceTwice(parseInt, Kid(d, i), p[1..], r); }
      WithKidTwice(d, i, Kid(a, i), i, Kid(a, i));
  }

  // ----- lists of pointers

  function ReplaceAll(parseInt: ParseInt, d: Json, paths: seq<seq<string>>, r: Json): Json
    requires forall i | 0 <= i < |paths| :: paths[i] != []
    decreases paths
  {
    if paths == [] then d else ReplaceAll(parseInt, ReplaceAt(parseInt, d, paths[0], r), paths[1..], r)
  }

  /** A replacement before a list of others can be made after them. */
  lemma {:induction false} ReplaceAllCommutes(parseInt: ParseInt, d: Json, p: seq<string>, paths: seq<seq<string>>,
      r: Json)
    requires p != [] && IsScalar(r) && forall i | 0 <= i < |paths| :: paths[i] != []
    ensures ReplaceAll(parseInt, ReplaceAt(parseInt, d, p, r), paths, r)
         == ReplaceAt(parseInt, ReplaceAll(parseInt, d, paths, r), p, r)
    decreases paths
  {
    if paths != [] {
      ReplaceCommutes(parseInt, d, p, paths[0], r);
      ReplaceAllCommutes(parseInt, ReplaceAt(parseInt, d, paths[0], r), p, paths[1..], r);
    }
  }

  /** Repeating a replacement already made changes nothing. */
  lemma {:induction false} ReplaceAllAbsorbs(parseInt: ParseInt, d: Json, paths: seq<seq<string>>, i: nat, r: Json)
    requires IsScalar(r) && i < |paths| && forall k | 0 <= k < |paths| :: paths[k] != []
    ensures ReplaceAt(parseInt, ReplaceAll(parseInt, d, paths, r), paths[i], r) == ReplaceAll(parseInt, d, paths, r)
    decreases paths
  {
    var e := ReplaceAt(parseInt, d, paths[0], r);
    if i == 0 {
      ReplaceAllCommutes(parseInt, e, paths[0], paths[1..], r);
      ReplaceTwice(parseInt, d, paths[0], r);
    } else {
      ReplaceAllAbsorbs(parseInt, e, paths[1..], i - 1, r);
    }
  }

  lemma {:induction false} ReplaceAllAgain(parseInt: ParseInt, d: Json, paths: seq<seq<string>>, more: seq<seq<string>>,
      r: Json)
    requires IsScalar(r)
    requires (forall i | 0 <= i < |paths| :: paths[i] != []) && forall i | 0 <= i < |more| :: more[i] in paths
    ensures forall i | 0 <= i < |more| :: more[i] != []
    ensures ReplaceAll(parseInt, ReplaceAll(parseInt, d, paths, r), more, r) == ReplaceAll(parseInt, d, paths, r)
    decreases more
  {
    if more != [] {
      var i :| 0 <= i < |paths| && paths[i] == more[0];
      ReplaceAllAbsorbs(parseInt, d, paths, i, r);
      ReplaceAllAgain(parseInt, d, paths, more[1..], r);
    }
  }

  lemma {:induction false} ReplaceAllSwap(parseInt: ParseInt, d: Json, a: seq<seq<string>>, b: seq<seq<string>>,
      r: Json)
    requires IsScalar(r)
    requires (forall i | 0 <= i < |a| :: a[i] != []) && forall i | 0 <= i < |b| :: b[i] != []
    ensures ReplaceAll(parseInt, ReplaceAll(parseInt, d, a, r), b, r) ==
        ReplaceAll(parseInt, ReplaceAll(parseInt, d, b, r), a, r)
    decreases b
  {
    if b != [] {
      ReplaceAllCommutes(parseInt, d, b[0], a, r);
      ReplaceAllSwap(parseInt, ReplaceAt(parseInt, d, b[0], r), a, b[1..], r);
    }
  }

  /** Only the set of paths matters: not their order, and not how often each occurs. */
  lemma ReplaceAllSet(parseInt: ParseInt, d: Json, a: seq<seq<string>>, b: seq<seq<string>>, r: Json)
    requires IsScalar(r) && Elements(a) == Elements(b)
    requires (forall i | 0 <= i < |a| :: a[i] != []) && forall i | 0 <= i < |b| :: b[i] != []
    ensures ReplaceAll(parseInt, d, a, r) == ReplaceAll(parseInt, d, b, r)
  {
    forall i | 0 <= i < |b| ensures b[i] in a { assert b[i] in Elements(b); }
    forall i | 0 <= i < |a| ensures a[i] in b { assert a[i] in Elements(a); }
    ReplaceAllAgain(parseInt, d, a, b, r);
    ReplaceAllAgain(parseInt, d, b, a, r);
    ReplaceAllSwap(parseInt, d, a, b, r);
  }

  // ----- the frame of one replacement

  ghost predicate Prefix(a: seq<nat>, b: seq<nat>) {
    |a| <= |b| && b[..|a|] == a
  }

  /** A replacement changes the designated node and nothing beside it: nodes not on the way
      there keep their value, nodes on the way keep their kind, length and keys. */
  lemma {:induction false} ReplaceFrame(parseInt: ParseInt, d: Json, parts: seq<string>, r: Json, location: seq<nat>)
    requires parts != []
    ensures var e, target := ReplaceAt(parseInt, d, parts, r), Resolve(parseInt, d, parts);
            && (target.None? ==> e == d)
            && (target.Some? ==> At(e, target.value) == Some(r))
            && (target.Some? && !Prefix(target.value, location) && !Prefix(location, target.value) ==>
                  At(e, location) == At(d, location))
            && (target.Some? && Prefix(location, target.value) && location != target.value ==>
                  At(d, location).Some? && At(e, location).Some?
                  && SameShape(At(d, location).value, At(e, location).value))
    decreases parts
  {
    var e, target := ReplaceAt(parseInt, d, parts, r), Resolve(parseInt, d, parts);
    match Child(parseInt, d, parts[0])
    case None =>
    case Some(i) =>
      var kid := Kid(d, i);
      if |parts| > 1 {
        ReplaceFrame(parseInt, kid, parts[1..], r, if location == [] then [] else location[1..]);
        if target.None? { WithKidSame(d, i); }
      }
      if target.Some? {
        assert target.value[1..] == Resolve(parseInt, kid, parts[1..]).value;
        FrameStep(d, e, i, target.value, location, r);
      }
  }

  lemma WithKidSame(d: Json, i: nat)
    requires i < Kids(d)
    ensures WithKid(d, i, Kid(d, i)) == d
  {
    match d
    case List(items) => assert items[i := items[i]] == items;
    case Object(members) => assert members[i := (members[i].0, members[i].1)] == members;
    case _ =>
  }

  /** What one replacement leaves at a location, given where it goes. */
  ghost predicate Framed(d: Json, e: Json, target: seq<nat>, location: seq<nat>) {
    && (!Prefix(target, location) && !Prefix(location, target) ==> At(e, location) == At(d, location))
    && (Prefix(location, target) && location != target ==>
          At(d, location).Some? && At(e, location).Some? && SameShape(At(d, location).value, At(e, location).value))
  }

  lemma FrameStep(d: Json, e: Json, i: nat, target: seq<nat>, location: seq<nat>, r: Json)
    requires i < Kids(d) && i < Kids(e) && e == WithKid(d, i, Kid(e, i)) && target != [] && target[0] == i
    requires At(Kid(e, i), target[1..]) == Some(r)
    requires location != [] && location[0] == i ==> Framed(Kid(d, i), Kid(e, i), target[1..], location[1..])
    ensures At(e, target) == Some(r) && Framed(d, e, target, location)
  {
    WithKidShape(d, i, Kid(e, i));
    if location != [] {
      PrefixTail(target, location);
      PrefixTail(location, target);
      if location[0] == i {
        FrameUnder(d, e, i, target, location);
      }
    }
  }

  lemma FrameUnder(d: Json, e: Json, i: nat, target: seq<nat>, location: seq<nat>)
    requires i < Kids(d) && i < Kids(e) && target != [] && target[0] == i && location != [] && location[0] == i
    requires Framed(Kid(d, i), Kid(e, i), target[1..], location[1..])
    ensures Framed(d, e, target, location)
  {
    PrefixTail(target, location);
    PrefixTail(location, target);
    assert location == [i] + location[1..] && target == [i] + target[1..];
  }

  lemma PrefixTail(a: seq<nat>, b: seq<nat>)
    requires a != [] && b != []
    ensures Prefix(a, b) <==> a[0] == b[0] && Prefix(a[1..], b[1..])
  {
    if Prefix(a, b) {
      assert b[..|a|][0] == a[0];
      assert b[1..][..|a| - 1] == b[..|a|][1..] == a[1..];
    }
    if a[0] == b[0] && Prefix(a[1..], b[1..]) {
      assert b[..|a|] == [b[0]] + b[1..][..|a| - 1] == [a[0]] + a[1..] == a;
    }
  }

  /** `e` is `d` with what the path designates replaced by `r`, and nothing else changed. */
  ghost predicate Replaced(parseInt: ParseInt, d: Json, parts: seq<string>, r: Json, e: Json) {
    && ((forall target :: !Designates(parseInt, d, parts, target)) ==> e == d)
    && forall target | Designates(parseInt, d, parts, target) ::
         At(e, target) == Some(r) && forall location :: Framed(d, e, target, location)
  }

  /** The replacement stated without the walk: by what the path designates. */
  lemma ReplaceDesignated(parseInt: ParseInt, d: Json, parts: seq<string>, r: Json)
    requires parts != []
    ensures Replaced(parseInt, d, parts, r, ReplaceAt(parseInt, d, parts, r))
  {
    var e := ReplaceAt(parseInt, d, parts, r);
    if Resolve(parseInt, d, parts).None? {
      ReplaceFrame(parseInt, d, parts, r, []);
    } else {
      ResolveMeans(parseInt, d, parts, Resolve(parseInt, d, parts).value);
    }
    forall target | Designates(parseInt, d, parts, target)
      ensures At(e, target) == Some(r) && forall location :: Framed(d, e, target, location)
    {
      ResolveMeans(parseInt, d, parts, target);
      forall location ensures Framed(d, e, target, location) { ReplaceFrame(parseInt, d, parts, r, location); }
      ReplaceFrame(parseInt, d, parts, r, target);
    }
  }

  // ----- the frame of a list of replacements

  /** After a replacement a path designates what it did before, or nothing. */
  lemma {:induction false} ResolveStable(parseInt: ParseInt, d: Json, q: seq<string>, p: seq<string>, r: Json)
    requires q != [] && IsScalar(r)
    ensures Resolve(parseInt, ReplaceAt(parseInt, d, q, r), p).None?
            || Resolve(parseInt, ReplaceAt(parseInt, d, q, r), p) == Resolve(parseInt, d, p)
    decreases p
  {
    if p != [] {
      var e := ReplaceAt(parseInt, d, q, r);
      ReplaceShape(parseInt, d, q, r);
      ChildSame(parseInt, d, e, p[0]);
      if Child(parseInt, d, p[0]).Some? {
        var i := Child(parseInt, d, p[0]).value;
        if Child(parseInt, d, q[0]) == Some(i) && |q| > 1 {
          ResolveStable(parseInt, Kid(d, i), q[1..], p[1..], r);
        }
      }
    }
  }

  lemma {:induction false} PathsResolveStable(parseInt: ParseInt, d: Json, q: seq<string>, paths: seq<seq<string>>,
      r: Json, location: seq<nat>)
    requires q != [] && IsScalar(r) && Outside(parseInt, d, paths, location)
    ensures Outside(parseInt, ReplaceAt(parseInt, d, q, r), paths, location)
    ensures Beside(parseInt, d, paths, location) ==> Beside(parseInt, ReplaceAt(parseInt, d, q, r), paths, location)
  {
    forall i | 0 <= i < |paths|
      ensures Resolve(parseInt, ReplaceAt(parseInt, d, q, r), paths[i]).None?
              || Resolve(parseInt, ReplaceAt(parseInt, d, q, r), paths[i]) == Resolve(parseInt, d, paths[i])
    {
      ResolveStable(parseInt, d, q, paths[i], r);
    }
  }

  /** The location is not at or under anything the paths designate. */
  ghost predicate Outside(parseInt: ParseInt, d: Json, paths: seq<seq<string>>, location: seq<nat>) {
    forall i | 0 <= i < |paths| && Resolve(parseInt, d, paths[i]).Some? ::
      !Prefix(Resolve(parseInt, d, paths[i]).value, location)
  }

  /** Nor is it on the way to it. */
  ghost predicate Beside(parseInt: ParseInt, d: Json, paths: seq<seq<string>>, location: seq<nat>) {
    forall i | 0 <= i < |paths| && Resolve(parseInt, d, paths[i]).Some? ::
      !Prefix(location, Resolve(parseInt, d, paths[i]).value)
  }

  ghost predicate ShapeKept(d: Option<Json>, e: Option<Json>) {
    d.Some? == e.Some? && (d.Some? ==> SameShape(d.value, e.value))
  }

  /** Outside what the paths designate no node is added, removed or changed in kind, length or keys;
      beside it every node keeps its value. */
  lemma {:induction false} ReplaceAllFrame(parseInt: ParseInt, d: Json, paths: seq<seq<string>>, r: Json,
      location: seq<nat>)
    requires IsScalar(r) && (forall i | 0 <= i < |paths| :: paths[i] != []) && Outside(parseInt, d, paths, location)
    ensures ShapeKept(At(d, location), At(ReplaceAll(parseInt, d, paths, r), location))
    ensures Beside(parseInt, d, paths, location) ==> At(ReplaceAll(parseInt, d, paths, r), location) == At(d, location)
    decreases paths
  {
    if paths != [] {
      var e := ReplaceAt(parseInt, d, paths[0], r);
      ReplaceFrame(parseInt, d, paths[0], r, location);
      assert forall i | 0 <= i < |paths[1..]| :: paths[1..][i] == paths[i + 1];
      assert Beside(parseInt, d, paths, location) ==> Beside(parseInt, d, paths[1..], location);
      PathsResolveStable(parseInt, d, paths[0], paths[1..], r, location);
      ReplaceAllFrame(parseInt, e, paths[1..], r, location);
    }
  }

  /** Whatever a path of the list designates in the result is the replacement. */
  lemma ReplaceAllHits(parseInt: ParseInt, d: Json, paths: seq<seq<string>>, r: Json, i: nat)
    requires IsScalar(r) && i < |paths| && forall k | 0 <= k < |paths| :: paths[k] != []
    ensures var e := ReplaceAll(parseInt, d, paths, r);
            var target := Resolve(parseInt, e, paths[i]);
            target.Some? ==> At(e, target.value) == Some(r)
  {
    ReplaceAllAbsorbs(parseInt, d, paths, i, r);
    ReplaceFrame(parseInt, ReplaceAll(parseInt, d, paths, r), paths[i], r, []);
  }

  /** The location holds the replacement, or lies under a place that does. */
  ghost predicate Covered(d: Json, location: seq<nat>, r: Json) {
    exists k :: 0 <= k <= |location| && At(d, location[..k]) == Some(r)
  }

  /** A replacement does not uncover anything. */
  lemma StaysCovered(parseInt: ParseInt, d: Json, p: seq<string>, location: seq<nat>, r: Json)
    requires p != [] && IsScalar(r) && Covered(d, location, r)
    ensures Covered(ReplaceAt(parseInt, d, p, r), location, r)
  {
    var k :| 0 <= k <= |location| && At(d, location[..k]) == Some(r);
    var u := location[..k];
    ReplaceFrame(parseInt, d, p, r, u);
    var e, target := ReplaceAt(parseInt, d, p, r), Resolve(parseInt, d, p);
    if target.Some? && Prefix(target.value, u) {
      assert location[..|target.value|] == target.value;
      assert At(e, location[..|target.value|]) == Some(r);
    } else {
      assert At(e, location[..k]) == Some(r);
    }
  }

  lemma {:induction false} StaysCoveredByAll(parseInt: ParseInt, d: Json, paths: seq<seq<string>>, location: seq<nat>,
      r: Json)
    requires IsScalar(r) && Covered(d, location, r) && forall i | 0 <= i < |paths| :: paths[i] != []
    ensures Covered(ReplaceAll(parseInt, d, paths, r), location, r)
    decreases paths
  {
    if paths != [] {
      StaysCovered(parseInt, d, paths[0], location, r);
      StaysCoveredByAll(parseInt, ReplaceAt(parseInt, d, paths[0], r), paths[1..], location, r);
    }
  }

  /** A path loses what it designates only to a replacement at or above it. */
  lemma {:induction false} LostUnder(parseInt: ParseInt, d: Json, q: seq<string>, p: seq<string>, r: Json)
    requires q != [] && IsScalar(r) && Resolve(parseInt, d, p).Some?
    requires Resolve(parseInt, ReplaceAt(parseInt, d, q, r), p).None?
    ensures Resolve(parseInt, d, q).Some? && Prefix(Resolve(parseInt, d, q).value, Resolve(parseInt, d, p).value)
    decreases p
  {
    var e := ReplaceAt(parseInt, d, q, r);
    ReplaceShape(parseInt, d, q, r);
    ChildSame(parseInt, d, e, p[0]);
    var i := Child(parseInt, d, p[0]).value;
    assert Child(parseInt, d, q[0]) == Some(i);
    if |q| > 1 {
      LostUnder(parseInt, Kid(d, i), q[1..], p[1..], r);
    } else {
      assert Resolve(parseInt, Kid(d, i), q[1..]) == Some([]);
    }
    PrefixTail(Resolve(parseInt, d, q).value, Resolve(parseInt, d, p).value);
  }

  /** Whatever a path of the list designates in the input ends as the replacement or under one. */
  lemma {:induction false} ReplaceAllCovers(parseInt: ParseInt, d: Json, paths: seq<seq<string>>, r: Json, i: nat)
    requires IsScalar(r) && i < |paths| && forall k | 0 <= k < |paths| :: paths[k] != []
    ensures var target := Resolve(parseInt, d, paths[i]);
            target.Some? ==> Covered(ReplaceAll(parseInt, d, paths, r), target.value, r)
    decreases paths
  {
    var target := Resolve(parseInt, d, paths[i]);
    if target.Some? {
      var q, t := paths[0], target.value;
      var e := ReplaceAt(parseInt, d, q, r);
      if i > 0 && Resolve(parseInt, e, paths[i]).Some? {
        ResolveStable(parseInt, d, q, paths[i], r);
        ReplaceAllCovers(parseInt, e, paths[1..], r, i - 1);
      } else {
        CoveredAtOnce(parseInt, d, q, paths[i], r);
        StaysCoveredByAll(parseInt, e, paths[1..], t, r);
      }
    }
  }

  lemma CoveredAtOnce(parseInt: ParseInt, d: Json, q: seq<string>, p: seq<string>, r: Json)
    requires q != [] && IsScalar(r) && Resolve(parseInt, d, p).Some?
    requires q == p || Resolve(parseInt, ReplaceAt(parseInt, d, q, r), p).None?
    ensures Covered(ReplaceAt(parseInt, d, q, r), Resolve(parseInt, d, p).value, r)
  {
    var e, t := ReplaceAt(parseInt, d, q, r), Resolve(parseInt, d, p).value;
    if q != p {
      LostUnder(parseInt, d, q, p, r);
    }
    var u := Resolve(parseInt, d, q).value;
    ReplaceFrame(parseInt, d, q, r, []);
    assert t[..|u|] == u;
  }

  // ----- the list as pointers

  predicate IsPointer(pointer: string) {
    pointer != "" && pointer[0] == '/'
  }

  function PathOf(pointer: string): (r: seq<string>)
    requires IsPointer(pointer)
    ensures r != [] && ParsePointer(pointer) == Some(r)
  {
    Map(Unescape, Split(pointer[1..]))
  }

  function Paths(pointers: seq<string>): (r: seq<seq<string>>)
    requires forall i | 0 <= i < |pointers| :: IsPointer(pointers[i])
    ensures |r| == |pointers|
    ensures forall i | 0 <= i < |pointers| :: r[i] == PathOf(pointers[i]) && r[i] != []
  {
    seq(|pointers|, i requires 0 <= i < |pointers| => PathOf(pointers[i]))
  }

  lemma {:induction false} ReplaceAllSnoc(parseInt: ParseInt, d: Json, paths: seq<seq<string>>, p: seq<string>, r: Json)
    requires p != [] && forall i | 0 <= i < |paths| :: paths[i] != []
    ensures ReplaceAll(parseInt, d, paths + [p], r) == ReplaceAt(parseInt, ReplaceAll(parseInt, d, paths, r), p, r)
    decreases paths
  {
    if paths == [] {
      assert paths + [p] == [p];
    } else {
      assert (paths + [p])[1..] == paths[1..] + [p];
      ReplaceAllSnoc(parseInt, ReplaceAt(parseInt, d, paths[0], r), paths[1..], p, r);
    }
  }

  lemma PathsSnoc(pointers: seq<string>, k: nat)
    requires k < |pointers| && forall i | 0 <= i <= k :: IsPointer(pointers[i])
    ensures Paths(pointers[..k + 1]) == Paths(pointers[..k]) + [PathOf(pointers[k])]
  {
  }

  /** Lists of the same pointers, in any order and with any repetitions, give the same document. */
  lemma PointersSet(parseInt: ParseInt, d: Json, a: seq<string>, b: seq<string>, r: Json)
    requires IsScalar(r) && Elements(a) == Elements(b)
    requires (forall i | 0 <= i < |a| :: IsPointer(a[i])) && forall i | 0 <= i < |b| :: IsPointer(b[i])
    ensures ReplaceAll(parseInt, d, Paths(a), r) == ReplaceAll(parseInt, d, Paths(b), r)
  {
    PathsSubset(a, b);
    PathsSubset(b, a);
    assert Elements(Paths(a)) == Elements(Paths(b));
    ReplaceAllSet(parseInt, d, Paths(a), Paths(b), r);
  }

  lemma PathsSubset(a: seq<string>, b: seq<string>)
    requires Elements(a) <= Elements(b)
    requires (forall i | 0 <= i < |a| :: IsPointer(a[i])) && forall i | 0 <= i < |b| :: IsPointer(b[i])
    ensures Elements(Paths(a)) <= Elements(Paths(b))
  {
    forall p | p in Elements(Paths(a)) ensures p in Elements(Paths(b)) {
      var i :| 0 <= i < |a| && Paths(a)[i] == p;
      assert a[i] in Elements(b);
      var j :| 0 <= j < |b| && b[j] == a[i];
      assert Paths(b)[j] == p;
    }
  }
}
