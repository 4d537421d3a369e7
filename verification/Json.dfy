/** JSON documents as Python holds them: objects keep their insertion order. NotFinite is a float that is
    not a number or infinite, NotJson a value of another type, such as a date read from YAML. */
module Json {

  datatype Json =
    | Null
    | Bool(flag: bool)
    | Number(text: string)
    | NotFinite
    | NotJson
    | Text(text: string)
    | List(items: seq<Json>)
    | Object(members: seq<(string, Json)>)

  /** A value without children. */
  predicate IsScalar(d: Json) {
    !d.List? && !d.Object?
  }

  /** Number of children. */
  function Kids(d: Json): nat {
    match d
    case List(items) => |items|
    case Object(members) => |members|
    case _ => 0
  }

  function Kid(d: Json, i: nat): (k: Json)
    requires i < Kids(d)
    ensures k < d
  {
    match d
    case List(items) => items[i]
    case Object(members) => members[i].1
  }

  /** `d` with its i-th child replaced. */
  function WithKid(d: Json, i: nat, kid: Json): (r: Json)
    requires i < Kids(d)
    ensures Kids(r) == Kids(d) && forall j | 0 <= j < Kids(d) :: Kid(r, j) == if j == i then kid else Kid(d, j)
  {
    match d
    case List(items) => List(items[i := kid])
    case Object(members) => Object(members[i := (members[i].0, kid)])
  }

  /** Same kind, same length, same keys in the same order. */
  predicate SameShape(d: Json, e: Json) {
    match (d, e)
    case (List(items), List(items')) => |items| == |items'|
    case (Object(members), Object(members')) =>
      |members| == |members'| && forall i | 0 <= i < |members| :: members[i].0 == members'[i].0
    case _ => d == e
  }

  lemma SameDocument(d: Json, e: Json)
    requires SameShape(d, e) && forall i | 0 <= i < Kids(d) :: Kid(d, i) == Kid(e, i)
    ensures d == e
  {
    match (d, e)
    case (List(items), List(items')) =>
      assert forall i | 0 <= i < |items| :: items[i] == Kid(d, i) && items'[i] == Kid(e, i);
      assert items == items';
    case (Object(members), Object(members')) =>
      assert forall i | 0 <= i < |members| :: members[i].1 == Kid(d, i) && members'[i].1 == Kid(e, i);
      assert members == members';
    case _ =>
  }
}
