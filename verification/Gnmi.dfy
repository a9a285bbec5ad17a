/** The values the caches exchange: parsed JSON documents, gNMI path elements and
    gNMI notifications.  Paths of the tree (`Path`) are flattened: one string per step. */
module Gnmi {

  type Path = seq<string>

  datatype Option<+T> = None | Some(value: T) {
    function GetOr(default: T): T { if Some? then value else default }
  }

  datatype Result<+T> = Ok(value: T) | Err

  /** A decoded JSON value.  `Null` is Go's nil interface. */
  datatype Json =
    | Null
    | Bool(b: bool)
    | Num(n: real)
    | Str(s: string)
    | Arr(items: seq<Json>)
    | Obj(fields: map<string, Json>)

  /** Go's `==` on decoded values stops the program on two lists and on two maps. */
  predicate CanCompare(a: Json, b: Json) {
    !(a.Arr? && b.Arr?) && !(a.Obj? && b.Obj?)
  }

  method Same(a: Json, b: Json) returns (same: bool)
    requires CanCompare(a, b)
    ensures same <==> a == b
  {
    same := a == b;
  }

  /** A gNMI path element: a name and, for a list entry, its key leaves. */
  datatype PathElem = PathElem(name: string, key: map<string, string>)

  /** The key leaves of a list entry. */
  function KeyLeaves(key: map<string, string>): map<string, Json> {
    map k | k in key :: Str(key[k])
  }

  /** A gNMI typed value; JSON payloads are kept decoded. */
  datatype TypedVal =
    | BoolVal(bv: bool)
    | StringVal(sv: string)
    | IntVal(iv: int)
    | JsonVal(json: Json)

  /** The decoded form of a typed value. */
  function GetValue(v: TypedVal): Json {
    match v
    case BoolVal(b) => Bool(b)
    case StringVal(s) => Str(s)
    case IntVal(i) => Num(i as real)
    case JsonVal(j) => j
  }

  /** Only a typed value of its own kind, or the same JSON value, decodes to a value. */
  lemma ValueMeaning(v: TypedVal, j: Json)
    ensures GetValue(v) == j <==>
              || v == JsonVal(j)
              || (exists b :: v == BoolVal(b) && j == Bool(b))
              || (exists s :: v == StringVal(s) && j == Str(s))
              || (exists i :: v == IntVal(i) && j == Num(i as real))
  {
    match v
    case BoolVal(b) => assert v == BoolVal(b);
    case StringVal(s) => assert v == StringVal(s);
    case IntVal(i) => assert v == IntVal(i);
    case JsonVal(_) =>
  }

  datatype Update = Update(path: seq<PathElem>, val: TypedVal)

  /** `prefix` is the flattened prefix path without its target name. */
  datatype Notification = Notification(
    ts: int, prefix: Path, updates: seq<Update>, deletes: seq<seq<PathElem>>, atomic: bool)

  /** A notification whose first update carries a JSON object: a container without a
      value of its own. */
  predicate IsContainer(n: Notification) {
    |n.updates| > 0 && GetValue(n.updates[0].val).Obj?
  }

  lemma ContainerMeaning(n: Notification)
    ensures IsContainer(n) <==> exists path, m, rest :: n.updates == [Update(path, JsonVal(Obj(m)))] + rest
  {
    if IsContainer(n) {
      var u := n.updates[0];
      assert n.updates == [Update(u.path, JsonVal(Obj(u.val.json.fields)))] + n.updates[1..];
    }
  }
}
