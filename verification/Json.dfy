/** Parsed JSON: objects keep their keys in order, as Python dicts do. */
module Json {
  import opened Wrappers

  datatype Json =
    | Null
    | Bool(b: bool)
    | Int(n: int)
    | Float(x: real)
    | Str(s: string)
    | List(items: seq<Json>)
    | Obj(fields: seq<Field>)

  datatype Field = Field(key: string, value: Json)

  /** The value under a key of an object. */
  function Child(j: Json, key: string): (v: Option<Json>)
    requires j.Obj?
    ensures v.Some? ==> v.value < j
    ensures v.Some? <==> key in Keys(j.fields)
  {
    var i := IndexOfKey(j.fields, key);
    if i < |j.fields| then Some(j.fields[i].value) else None
  }

  function Keys(fields: seq<Field>): set<string> {
    set f | f in fields :: f.key
  }

  function IndexOfKey(fields: seq<Field>, key: string): (i: nat)
    ensures i <= |fields|
    ensures i < |fields| ==> fields[i].key == key
    ensures forall j :: 0 <= j < i ==> fields[j].key != key
  {
    if fields == [] || fields[0].key == key then 0 else 1 + IndexOfKey(fields[1..], key)
  }

  datatype PathStep = Key(key: string) | Index(i: nat)

  function Get(j: Json, path: seq<PathStep>): Option<Json>
    decreases path
  {
    if path == [] then Some(j)
    else
      match path[0]
      case Key(key) =>
        if !j.Obj? || Child(j, key).None? then None else Get(Child(j, key).value, path[1..])
      case Index(i) =>
        if !j.List? || i >= |j.items| then None else Get(j.items[i], path[1..])
  }
}
