/** JSON documents as values.  Numbers are opaque, and an object lists its fields
    in ascending key order, as the source's map iterates. */
module Json {
  import opened Text

  datatype Value =
    | Null
    | Bool(b: bool)
    | Number(n: string)
    | Str(s: string)
    | Array(items: seq<Value>)
    | Object(fields: seq<Field>)

  datatype Field = Field(key: string, value: Value)

  /** A step from a value to one of its children. */
  datatype Segment = Key(key: string) | Index(index: nat)

  type Path = seq<Segment>

  ghost predicate Ascending(fs: seq<Field>) {
    forall i, j :: 0 <= i < j < |fs| ==> LexLess(fs[i].key, fs[j].key)
  }

  /** Every object in the document has ascending, hence distinct, keys. */
  ghost predicate Valid(v: Value) {
    match v
    case Array(items) => forall i :: 0 <= i < |items| ==> Valid(items[i])
    case Object(fields) => Ascending(fields) && forall i :: 0 <= i < |fields| ==> Valid(fields[i].value)
    case _ => true
  }

  /** `Map::get`. */
  function Get(fs: seq<Field>, key: string): (r: Option<Value>)
    ensures r.None? <==> forall i :: 0 <= i < |fs| ==> fs[i].key != key
    ensures r.Some? ==> Field(key, r.value) in fs
  {
    if fs == [] then None
    else if fs[0].key == key then Some(fs[0].value)
    else Get(fs[1..], key)
  }

  function Child(v: Value, s: Segment): Option<Value> {
    match (v, s)
    case (Object(fields), Key(k)) => Get(fields, k)
    case (Array(items), Index(i)) => if i < |items| then Some(items[i]) else None
    case _ => None
  }

  function Follow(v: Value, path: Path): Option<Value> {
    if path == [] then Some(v)
    else match Child(v, path[0])
      case None => None
      case Some(child) => Follow(child, path[1..])
  }

  lemma {:induction false} GetOfMember(fs: seq<Field>, i: nat)
    requires Ascending(fs) && i < |fs|
    ensures Get(fs, fs[i].key) == Some(fs[i].value)
  {
    if i > 0 {
      LexLessIrreflexive(fs[0].key);
      assert fs[0].key != fs[i].key;
      AscendingTail(fs);
      GetOfMember(fs[1..], i - 1);
    }
  }

  lemma AscendingTail(fs: seq<Field>)
    requires Ascending(fs) && fs != []
    ensures Ascending(fs[1..])
    ensures Get(fs[1..], fs[0].key) == None
  {
    forall i | 0 <= i < |fs[1..]| ensures fs[1..][i].key != fs[0].key && LexLess(fs[0].key, fs[1..][i].key) {
      assert fs[1..][i] == fs[i + 1];
      LexLessIrreflexive(fs[0].key);
    }
  }
}
