/** The get / update / delete engine over JSON trees: one recursive walk along a path, whose
    action decides what happens at its end. */
module JsonEngine {
  import opened Gnmi
  import PathPresent

  /** `Change` is the update action. */
  datatype Action = Get | Find | Delete | Create | Change

  /** One element of the path: its name, its key values as given (`key`), and in cleaned form
      (`ck`), as they are written into new entries. */
  datatype Step = Step(name: string, key: map<string, string>, ck: map<string, string>)

  /** The returned tree or value, and the found flag of the trace context. */
  datatype Res = Res(json: Json, found: bool)

  // ---------------------------------------------------------------- the walk

  predicate IsEntry(x: Json, key: map<string, string>, print0: real -> string) {
    x.Obj? && PathPresent.FindKey(key, x.fields, print0)
  }

  /** The index of the first entry with the key, or the length. */
  function FirstEntry(items: seq<Json>, key: map<string, string>, print0: real -> string): nat {
    if items == [] then 0
    else if IsEntry(items[0], key, print0) then 0
    else 1 + FirstEntry(items[1..], key, print0)
  }

  /** A new list for a keyed path element. */
  function NewEntries(tx: Json, ck: map<string, string>): seq<Json> {
    match tx
    case Obj(m) => [Obj(m + KeyLeaves(ck))]
    case Null => [Obj(KeyLeaves(ck))]
    case _ => []
  }

  /** What an update leaves in an existing entry. */
  function Overwritten(tx: Json, key: map<string, string>): Json {
    if tx.Obj? then Obj(tx.fields + KeyLeaves(key)) else Obj(KeyLeaves(key))
  }

  predicate Writes(act: Action) {
    act == Create || act == Change
  }

  /** ParseTreeWithActionGnmi on the tree `x` for the rest of the path; `tx` is the cleaned value. */
  function Parse(act: Action, x: Json, path: seq<Step>, tx: Json, print0: real -> string): Res
    requires path != []
    decreases |path|, x
  {
    match x
    case Obj(m) => ParseMap(act, m, path, tx, print0)
    case Arr(items) => ParseList(act, items, path, tx, print0)
    case Null => if Writes(act) then ParseNil(act, path, tx, print0) else Res(x, false)
    case _ => Res(x, false)
  }

  function ParseMap(act: Action, m: map<string, Json>, path: seq<Step>, tx: Json, print0: real -> string): Res
    requires path != []
    decreases |path|, Obj(m), 0
  {
    var s, rest := path[0], path[1..];
    if s.name in m then
      var y := m[s.name];
      if s.key == map[] && rest == [] then
        match act
        case Get => Res(y, true)
        case Find => Res(y, true)
        case Delete => Res(Obj(m - {s.name}), true)
        case _ => Res(Obj(m[s.name := tx]), true)
      else
        var r := if s.key == map[] then Parse(act, y, rest, tx, print0) else Parse(act, y, path, tx, print0);
        if act == Get || act == Find then r
        else if act == Delete && s.key != map[] && rest == [] && r.json == Arr([]) then Res(Obj(m - {s.name}), r.found)
        else Res(Obj(m[s.name := r.json]), r.found)
    else if !Writes(act) then Res(Obj(m), false)
    else if rest == [] then
      Res(Obj(m[s.name := if s.key != map[] then Arr(NewEntries(tx, s.ck)) else tx]), false)
    else
      var r := Parse(act, Obj(map[]), rest, tx, print0);
      Res(Obj(m[s.name := r.json]), r.found)
  }

  function ParseList(act: Action, items: seq<Json>, path: seq<Step>, tx: Json, print0: real -> string): Res
    requires path != []
    decreases |path|, Arr(items), 0
  {
    var s, rest := path[0], path[1..];
    var n := if s.key == map[] then |items| else FirstEntry(items, s.key, print0);
    if n < |items| then
      if rest == [] then
        match act
        case Get => Res(items[n], true)
        case Find => Res(items[n], true)
        case Delete => Res(Arr(items[..n] + items[n + 1..]), true)
        case Change => Res(Arr(items[n := Overwritten(tx, s.key)]), true)
        case Create => Res(Arr(items), true)
      else
        var r := Parse(act, items[n], rest, tx, print0);
        if act == Get || act == Find then r else Res(Arr(items[n := r.json]), r.found)
    else if Writes(act) && rest == [] && tx.Obj? then
      Res(Arr(items + [Obj(tx.fields + KeyLeaves(s.ck))]), false)
    else Res(Arr(items), false)
  }

  /** Writing into nothing.  For a keyed element that is not the last one, the new list is returned
      in the place of the map that holds it. */
  function ParseNil(act: Action, path: seq<Step>, tx: Json, print0: real -> string): Res
    requires path != []
    decreases |path|, Null, 0
  {
    var s, rest := path[0], path[1..];
    if rest == [] then
      Res(Obj(map[s.name := if s.key != map[] then Arr(NewEntries(tx, s.ck)) else tx]), false)
    else if s.key != map[] then
      var l := NewEntries(tx, s.ck);
      var r := Parse(act, Arr(l), rest, tx, print0);
      Res(if r.json.Arr? && |l| <= |r.json.items| then Arr(r.json.items[..|l|]) else Arr(l), r.found)
    else
      var r := Parse(act, tx, rest, tx, print0);
      Res(Obj(map[s.name := r.json]), r.found)
  }

  /** A find compares the value at the end of a path without keys with the value of the action, of
      which cleaning does not change the kind.  It stops the program if both are lists or both maps. */
  predicate CanFind(x: Json, path: seq<Step>, tx: Json, print0: real -> string)
    requires path != []
  {
    var r := Parse(Get, x, path, tx, print0);
    path[|path| - 1].key == map[] && r.found ==> CanCompare(r.json, tx)
  }

  lemma CanFindBelow(m: map<string, Json>, path: seq<Step>, tx: Json, print0: real -> string)
    requires path != [] && path[0].name in m && CanFind(Obj(m), path, tx, print0)
    ensures var s, rest, y := path[0], path[1..], m[path[0].name];
            if s.key != map[] then CanFind(y, path, tx, print0)
            else if rest == [] then CanCompare(y, tx) else CanFind(y, rest, tx, print0)
  {
    var rest := path[1..];
    if rest != [] { assert rest[|rest| - 1] == path[|path| - 1]; }
    assert Parse(Get, Obj(m), path, tx, print0) == ParseMap(Get, m, path, tx, print0);
  }

  lemma CanFindInEntry(items: seq<Json>, path: seq<Step>, tx: Json, print0: real -> string)
    requires |path| > 1 && path[0].key != map[] && FirstEntry(items, path[0].key, print0) < |items|
    requires CanFind(Arr(items), path, tx, print0)
    ensures CanFind(items[FirstEntry(items, path[0].key, print0)], path[1..], tx, print0)
  {
    var rest := path[1..];
    assert rest[|rest| - 1] == path[|path| - 1];
    assert Parse(Get, Arr(items), path, tx, print0) == ParseList(Get, items, path, tx, print0);
  }

  /** Where it does not stop the program, finding is getting. */
  lemma {:induction false} FindIsGet(x: Json, path: seq<Step>, tx: Json, print0: real -> string)
    requires path != [] && CanFind(x, path, tx, print0)
    ensures Parse(Find, x, path, tx, print0) == Parse(Get, x, path, tx, print0)
    decreases |path|, x
  {
    var s, rest := path[0], path[1..];
    match x
    case Obj(m) =>
      if s.name in m {
        CanFindBelow(m, path, tx, print0);
        if s.key != map[] {
          FindIsGet(m[s.name], path, tx, print0);
        } else if rest != [] {
          FindIsGet(m[s.name], rest, tx, print0);
        }
      }
    case Arr(items) =>
      var n := if s.key == map[] then |items| else FirstEntry(items, s.key, print0);
      if n < |items| && rest != [] {
        CanFindInEntry(items, path, tx, print0);
        FindIsGet(items[n], rest, tx, print0);
      }
    case _ =>
  }

  // ---------------------------------------------------------------- the code

  /** The trace context of one walk: action, path and cleaned value are given, the found flag is
      set on the way. */
  class TraceCtxt {
    const action: Action
    const path: seq<Step>
    const value: Json
    const print0: real -> string
    var found: bool

    constructor (action: Action, path: seq<Step>, value: Json, print0: real -> string)
      ensures this.action == action && this.path == path && this.value == value && this.print0 == print0
    {
      this.action := action;
      this.path := path;
      this.value := value;
      this.print0 := print0;
      found := false;
    }

    /** The walk from the path element at `idx` on. */
    method ParseTree(x1: Json, idx: nat) returns (r: Json)
      requires idx < |path|
      requires action == Find ==> CanFind(x1, path[idx..], value, print0)
      modifies this`found
      ensures Res(r, found) == Parse(action, x1, path[idx..], value, print0)
      decreases |path| - idx, x1, 1
    {
      match x1
      case Obj(m) => r := ParseObject(m, idx);
      case Arr(items) => r := ParseItems(items, idx);
      case Null =>
        if Writes(action) {
          r := ParseNothing(idx);
        } else {
          found := false;
          r := x1;
        }
      case _ =>
        found := false;
        r := x1;
    }

    method ParseObject(m: map<string, Json>, idx: nat) returns (r: Json)
      requires idx < |path|
      requires action == Find ==> CanFind(Obj(m), path[idx..], value, print0)
      modifies this`found
      ensures Res(r, found) == ParseMap(action, m, path[idx..], value, print0)
      decreases |path| - idx, Obj(m), 0
    {
      var s := path[idx];
      var last := idx == |path| - 1;
      assert path[idx..][1..] == path[idx + 1..];
      if s.name in m {
        if action == Find { CanFindBelow(m, path[idx..], value, print0); }
        if last && s.key == map[] {
          found := true;
          match action {
            case Get => r := m[s.name];
            case Find =>
              var same := Same(m[s.name], value);
              r := m[s.name];
            case Delete => r := Obj(m - {s.name});
            case _ => r := Obj(m[s.name := value]);
          }
        } else {
          var y;
          if s.key == map[] { y := ParseTree(m[s.name], idx + 1); } else { y := ParseTree(m[s.name], idx); }
          if action == Get || action == Find { return y; }
          r := Obj(m[s.name := y]);
          if action == Delete && s.key != map[] && last && y.Arr? && |y.items| == 0 {
            r := Obj(m - {s.name});
          }
        }
        return;
      }
      found := false;
      if !Writes(action) { return Obj(m); }
      if last {
        r := Obj(m[s.name := if s.key != map[] then Arr(NewEntries(value, s.ck)) else value]);
      } else {
        var y := ParseTree(Obj(map[]), idx + 1);
        r := Obj(m[s.name := y]);
      }
    }

    /** The loop over a list: the first entry with the key is the one to go on with. */
    method ParseItems(items: seq<Json>, idx: nat) returns (r: Json)
      requires idx < |path|
      requires action == Find ==> CanFind(Arr(items), path[idx..], value, print0)
      modifies this`found
      ensures Res(r, found) == ParseList(action, items, path[idx..], value, print0)
      decreases |path| - idx, Arr(items), 0
    {
      var s := path[idx];
      var last := idx == |path| - 1;
      assert path[idx..][1..] == path[idx + 1..];
      var n := 0;
      while n < |items|
        invariant 0 <= n <= |items|
        invariant s.key == map[] || forall j | 0 <= j < n :: !IsEntry(items[j], s.key, print0)
      {
        if s.key != map[] && items[n].Obj? {
          if IsEntry(items[n], s.key, print0) {
            FirstIs(items, s.key, print0, n);
            r := AtEntry(items, n, idx);
            return;
          }
          found := false;
        }
        n := n + 1;
      }
      if s.key != map[] { FirstIs(items, s.key, print0, n); }
      found := false;
      if Writes(action) && last && value.Obj? {
        r := Arr(items + [Obj(value.fields + KeyLeaves(s.ck))]);
      } else {
        r := Arr(items);
      }
    }

    method AtEntry(items: seq<Json>, n: nat, idx: nat) returns (r: Json)
      requires idx < |path| && n < |items| && path[idx].key != map[]
      requires n == FirstEntry(items, path[idx].key, print0)
      requires action == Find ==> CanFind(Arr(items), path[idx..], value, print0)
      modifies this`found
      ensures Res(r, found) == ParseList(action, items, path[idx..], value, print0)
      decreases |path| - idx, items[n], 2
    {
      assert path[idx..][1..] == path[idx + 1..];
      if idx == |path| - 1 {
        found := true;
        match action {
          case Get => r := items[n];
          case Find => r := items[n];
          case Delete => r := Arr(items[..n] + items[n + 1..]);
          case Change => r := Arr(items[n := Overwritten(value, path[idx].key)]);
          case Create => r := Arr(items);
        }
      } else {
        if action == Find { CanFindInEntry(items, path[idx..], value, print0); }
        var y := ParseTree(items[n], idx + 1);
        if action == Get || action == Find { return y; }
        r := Arr(items[n := y]);
      }
    }

    method ParseNothing(idx: nat) returns (r: Json)
      requires idx < |path| && Writes(action)
      modifies this`found
      ensures Res(r, found) == ParseNil(action, path[idx..], value, print0)
      decreases |path| - idx, Null, 0
    {
      var s := path[idx];
      assert path[idx..][1..] == path[idx + 1..];
      found := false;
      if idx == |path| - 1 {
        r := Obj(map[s.name := if s.key != map[] then Arr(NewEntries(value, s.ck)) else value]);
      } else if s.key != map[] {
        var l := NewEntries(value, s.ck);
        var y := ParseTree(Arr(l), idx + 1);
        r := if y.Arr? && |l| <= |y.items| then Arr(y.items[..|l|]) else Arr(l);
      } else {
        var y := ParseTree(value, idx + 1);
        r := Obj(map[s.name := y]);
      }
    }
  }

  lemma {:induction false} FirstIs(items: seq<Json>, key: map<string, string>, print0: real -> string, n: nat)
    requires n <= |items| && forall j | 0 <= j < n :: !IsEntry(items[j], key, print0)
    requires n < |items| ==> IsEntry(items[n], key, print0)
    ensures FirstEntry(items, key, print0) == n
    decreases n
  {
    if n > 0 { FirstIs(items[1..], key, print0, n - 1); }
  }

  lemma {:induction false} FirstMeaning(items: seq<Json>, key: map<string, string>, print0: real -> string)
    ensures FirstEntry(items, key, print0) <= |items|
    ensures forall j | 0 <= j < FirstEntry(items, key, print0) :: !IsEntry(items[j], key, print0)
    ensures FirstEntry(items, key, print0) < |items| ==> IsEntry(items[FirstEntry(items, key, print0)], key, print0)
  {
    if items != [] && !IsEntry(items[0], key, print0) { FirstMeaning(items[1..], key, print0); }
  }
}
