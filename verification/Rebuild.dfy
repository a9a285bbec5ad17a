/** Rebuilding a document from leaf updates, one at a time, as GetJson does. */
module Rebuild {
  import opened Gnmi
  import opened Documents

  /** The entry has exactly these values in its key leaves. */
  predicate Matches(x: Json, key: map<string, string>) {
    x.Obj? && forall k | k in key :: k in x.fields && x.fields[k] == Str(key[k])
  }

  /** The index of the first matching entry, or the length. */
  function FindEntry(items: seq<Json>, key: map<string, string>): nat {
    if items == [] then 0
    else if Matches(items[0], key) then 0
    else 1 + FindEntry(items[1..], key)
  }

  /** The object to write into: a nil document becomes an empty one. */
  function Fields(d: Json): Option<map<string, Json>> {
    match d
    case Null => Some(map[])
    case Obj(m) => Some(m)
    case _ => None
  }

  function AddData(d: Json, elems: seq<PathElem>, val: Json): Result<Json>
    decreases |elems|, 0
  {
    if elems == [] then Ok(Null)
    else
      var e, k, rest := elems[0].name, elems[0].key, elems[1..];
      match Fields(d)
      case None => if rest == [] && k != map[] then Ok(d) else Err
      case Some(m) =>
        if k == map[] then
          if rest == [] then Ok(Obj(m[e := val]))
          else
            match AddData(if e in m then m[e] else Null, rest, val)
            case Err => Err
            case Ok(x) => Ok(Obj(m[e := x]))
        else
          var items := if e in m then m[e] else Arr([]);
          if !items.Arr? then Err
          else if rest == [] then Ok(Obj(m[e := Arr(items.items + [Obj(map[e := val] + KeyLeaves(k))])]))
          else
            match AddEntry(items.items, k, rest, val)
            case Err => Err
            case Ok(l) => Ok(Obj(m[e := Arr(l)]))
  }

  /** The list with the update made in the entry with this key, or in a new one at the end. */
  function AddEntry(l: seq<Json>, k: map<string, string>, rest: seq<PathElem>, val: Json): Result<seq<Json>>
    requires rest != []
    decreases |rest|, 1
  {
    var i := FindEntry(l, k);
    if i < |l| then
      match AddData(l[i], rest, val)
      case Err => Err
      case Ok(x) => Ok(l[i := x])
    else
      match AddData(Obj(KeyLeaves(k)), rest, val)
      case Err => Err
      case Ok(x) => Ok(l + [x])
  }

  /** The fold of a query over the updates it visits, from a nil document. */
  function Fold(us: seq<Leaf>): Result<Json> {
    if us == [] then Ok(Null)
    else
      match Fold(us[..|us| - 1])
      case Err => Err
      case Ok(d) => AddData(d, us[|us| - 1].0, us[|us| - 1].1)
  }

  // ---------------------------------------------------------------- the code, step by step

  lemma {:induction false} FindFirst(items: seq<Json>, key: map<string, string>, i: nat)
    requires i <= |items| && forall j | 0 <= j < i :: !Matches(items[j], key)
    requires i == |items| || Matches(items[i], key)
    ensures FindEntry(items, key) == i
    decreases |items|
  {
    if i > 0 { FindFirst(items[1..], key, i - 1); }
  }

  method AddDataTo(d: Json, elems: seq<PathElem>, val: Json) returns (r: Result<Json>)
    ensures r == AddData(d, elems, val)
    decreases |elems|, 2
  {
    if elems == [] { return Ok(Null); }
    var e, k := elems[0].name, elems[0].key;
    if |elems| == 1 {
      if k == map[] { r := AddContainerValue(d, e, val); } else { r := AddListValue(d, e, k, val); }
    } else {
      if k == map[] { r := AddContainer(d, e, elems, val); } else { r := AddList(d, e, k, elems, val); }
    }
  }

  method AddContainerValue(d: Json, e: string, val: Json) returns (r: Result<Json>)
    ensures r == AddData(d, [PathElem(e, map[])], val)
  {
    var dd := d;
    if dd.Null? { dd := Obj(map[]); }
    if !dd.Obj? { return Err; }
    r := Ok(Obj(dd.fields[e := val]));
  }

  method AddListValue(d: Json, e: string, k: map<string, string>, val: Json) returns (r: Result<Json>)
    requires k != map[]
    ensures r == AddData(d, [PathElem(e, k)], val)
  {
    var dd := d;
    if dd.Null? { dd := Obj(map[]); }
    if !dd.Obj? { return Ok(dd); }
    var items := if e in dd.fields then dd.fields[e] else Arr([]);
    var de := map[e := val] + KeyLeaves(k);
    if !items.Arr? { return Err; }
    r := Ok(Obj(dd.fields[e := Arr(items.items + [Obj(de)])]));
  }

  method AddContainer(d: Json, e: string, elems: seq<PathElem>, val: Json) returns (r: Result<Json>)
    requires |elems| > 1 && elems[0] == PathElem(e, map[])
    ensures r == AddData(d, elems, val)
    decreases |elems|, 1
  {
    var dd := d;
    if dd.Null? { dd := Obj(map[]); }
    if !dd.Obj? { return Err; }
    var x := AddDataTo(if e in dd.fields then dd.fields[e] else Null, elems[1..], val);
    if x.Err? { return Err; }
    r := Ok(Obj(dd.fields[e := x.value]));
  }

  /** Looks through the list for the entry with the key; writes into it, or into a new entry. */
  method AddList(d: Json, e: string, k: map<string, string>, elems: seq<PathElem>, val: Json) returns (r: Result<Json>)
    requires |elems| > 1 && elems[0] == PathElem(e, k) && k != map[]
    ensures r == AddData(d, elems, val)
    decreases |elems|, 1
  {
    var dd := d;
    if dd.Null? { dd := Obj(map[]); }
    if !dd.Obj? { return Err; }
    var items := if e in dd.fields then dd.fields[e] else Arr([]);
    if !items.Arr? { return Err; }
    var l := items.items;
    var i := 0;
    while i < |l|
      invariant 0 <= i <= |l|
      invariant forall j | 0 <= j < i :: !Matches(l[j], k)
    {
      if Matches(l[i], k) {
        FindFirst(l, k, i);
        var x := AddDataTo(l[i], elems[1..], val);
        if x.Err? { return Err; }
        return Ok(Obj(dd.fields[e := Arr(l[i := x.value])]));
      }
      i := i + 1;
    }
    FindFirst(l, k, i);
    var x := AddDataTo(Obj(KeyLeaves(k)), elems[1..], val);
    if x.Err? { return Err; }
    r := Ok(Obj(dd.fields[e := Arr(l + [x.value])]));
  }

  /** The callback of the query, over all the updates it visits. */
  method Build(us: seq<Leaf>) returns (r: Result<Json>)
    ensures r == Fold(us)
  {
    r := Ok(Null);
    var i := 0;
    while i < |us|
      invariant 0 <= i <= |us|
      invariant r == Fold(us[..i]) && r.Ok?
    {
      assert us[..i + 1][..i] == us[..i];
      r := AddDataTo(r.value, us[i].0, us[i].1);
      if r.Err? {
        FoldErr(us, i + 1);
        return;
      }
      i := i + 1;
    }
    assert us[..i] == us;
  }

  lemma {:induction false} FoldErr(us: seq<Leaf>, i: nat)
    requires i <= |us| && Fold(us[..i]).Err?
    ensures Fold(us).Err?
    decreases |us| - i
  {
    if i == |us| {
      assert us[..i] == us;
    } else {
      assert us[..i + 1][..i] == us[..i];
      FoldErr(us, i + 1);
    }
  }
}
