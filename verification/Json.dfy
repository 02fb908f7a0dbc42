/**
 JSON documents and updates at a path of object keys, as the policy endpoints make them: missing or
 non-object containers on the way are replaced by empty objects.
 */
module Json {
  import opened Wrappers

  datatype Value =
    | Null
    | Bool(truth: bool)
    | Number(text: string)
    | Str(text: string)
    | Arr(items: seq<Value>)
    | Obj(fields: map<string, Value>)

  type Path = seq<string>

  /** The members of an object; none for any other value. */
  function Fields(v: Value): map<string, Value> {
    if v.Obj? then v.fields else map[]
  }

  function Child(v: Value, key: string): Value {
    if key in Fields(v) then Fields(v)[key] else Null
  }

  function Lookup(v: Value, path: Path): Option<Value> {
    if path == [] then Some(v)
    else if path[0] in Fields(v) then Lookup(Fields(v)[path[0]], path[1..])
    else None
  }

  function Set(v: Value, path: Path, x: Value): Value
    decreases |path|
  {
    if path == [] then x
    else Obj(Fields(v)[path[0] := Set(Child(v, path[0]), path[1..], x)])
  }

  /** Without the member at the end of the path. */
  function Delete(v: Value, path: Path): Value
    requires path != []
  {
    if path[0] !in Fields(v) then v
    else if |path| == 1 then Obj(Fields(v) - {path[0]})
    else Obj(Fields(v)[path[0] := Delete(Fields(v)[path[0]], path[1..])])
  }

  /** Neither path leads to or through the other. */
  predicate Apart(p: Path, q: Path) {
    p != [] && q != [] && (p[0] != q[0] || Apart(p[1..], q[1..]))
  }

  lemma {:induction false} LookupJoin(v: Value, p: Path, q: Path)
    ensures Lookup(v, p + q) == if Lookup(v, p).Some? then Lookup(Lookup(v, p).value, q) else None
  {
    if p == [] {
      assert p + q == q;
    } else {
      assert (p + q)[1..] == p[1..] + q;
      if p[0] in Fields(v) {
        LookupJoin(Fields(v)[p[0]], p[1..], q);
      }
    }
  }

  lemma {:induction false} SetThenLookup(v: Value, path: Path, x: Value)
    ensures Lookup(Set(v, path, x), path) == Some(x)
    decreases |path|
  {
    if path != [] {
      SetThenLookup(Child(v, path[0]), path[1..], x);
    }
  }

  lemma {:induction false} SetIsLocal(v: Value, path: Path, x: Value, q: Path)
    requires Apart(path, q)
    ensures Lookup(Set(v, path, x), q) == Lookup(v, q)
    decreases |path|
  {
    if path[0] == q[0] {
      SetIsLocal(Child(v, path[0]), path[1..], x, q[1..]);
    }
  }

  lemma {:induction false} DeleteThenLookup(v: Value, path: Path)
    requires path != []
    ensures Lookup(Delete(v, path), path) == None
  {
    if |path| > 1 && path[0] in Fields(v) {
      DeleteThenLookup(Fields(v)[path[0]], path[1..]);
    }
  }

  lemma {:induction false} DeleteIsLocal(v: Value, path: Path, q: Path)
    requires Apart(path, q)
    ensures Lookup(Delete(v, path), q) == Lookup(v, q)
  {
    if path[0] in Fields(v) && path[0] == q[0] {
      DeleteIsLocal(Fields(v)[path[0]], path[1..], q[1..]);
    }
  }
}
