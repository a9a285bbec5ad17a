/** Lens laws of the JSON engine: what a get sees after an update or a delete. */
module JsonLens {
  import opened Cleaning
  import opened Gnmi
  import opened JsonEngine
  import PathPresent

  type Print = real -> string

  /** The tree after an update and after a delete, and what a get answers. */
  function Put(x: Json, path: seq<Step>, tx: Json, p0: Print): Json
    requires path != []
  {
    Parse(Change, x, path, tx, p0).json
  }

  function Del(x: Json, path: seq<Step>, p0: Print): Json
    requires path != []
  {
    Parse(Delete, x, path, Null, p0).json
  }

  /** The answer of a get: the value, when it is found. */
  function View(x: Json, path: seq<Step>, p0: Print): Option<Json>
    requires path != []
  {
    var r := Parse(Get, x, path, Null, p0);
    if r.found then Some(r.json) else None
  }

  /** All key names and values of the path are clean. */
  ghost predicate CleanKeys(path: seq<Step>) {
    forall i | 0 <= i < |path| :: AlreadyClean(path[i].key) && CleanedKey(path[i].key, path[i].ck)
  }

  /** The path ends in a key leaf of the entry it goes through. */
  predicate EndsInKeyLeaf(path: seq<Step>) {
    |path| > 1 && path[|path| - 1].name in path[|path| - 2].key
  }

  /** If the path ends in a key leaf, the value is still the one the path names. */
  predicate KeyLeafKept(path: seq<Step>, tx: Json, p0: Print) {
    EndsInKeyLeaf(path) ==>
      PathPresent.KeyMatches(tx, path[|path| - 2].key[path[|path| - 1].name], p0)
  }

  lemma RestClean(path: seq<Step>)
    requires path != [] && CleanKeys(path)
    ensures CleanKeys(path[1..]) && path[0].ck == path[0].key
  {
    var rest := path[1..];
    forall i | 0 <= i < |rest| ensures AlreadyClean(rest[i].key) && CleanedKey(rest[i].key, rest[i].ck) {
      assert rest[i] == path[i + 1];
    }
    CleanKeyStays(path[0].key, path[0].ck);
  }

  lemma RestKept(path: seq<Step>, tx: Json, p0: Print)
    requires path != []
    ensures EndsInKeyLeaf(path[1..]) <==> |path| > 2 && EndsInKeyLeaf(path)
    ensures path[0].key == map[] || |path| > 2 ==> (KeyLeafKept(path[1..], tx, p0) <==> KeyLeafKept(path, tx, p0))
    ensures |path| == 2 ==> KeyLeafKept(path[1..], tx, p0)
  {
    var rest := path[1..];
    if |path| > 2 {
      assert rest[|rest| - 1] == path[|path| - 1] && rest[|rest| - 2] == path[|path| - 2];
    }
  }

  /** What an update goes on in below a map: the field, or an empty map where there is none. */
  function Below(m: map<string, Json>, name: string): Json {
    if name in m then m[name] else Obj(map[])
  }

  /** Parents of the path's target with keys exist, with lists where the path has keys; parents
      without keys are maps or do not exist; a keyed target that is not there yet gets a map as its
      value. */
  predicate Ready(x: Json, path: seq<Step>, tx: Json, p0: Print)
    requires path != []
    decreases |path|, 1
  {
    x.Obj? &&
    var s, rest, m := path[0], path[1..], x.fields;
    if s.key == map[] then rest == [] || Ready(Below(m, s.name), rest, tx, p0)
    else if s.name !in m then rest == [] && (tx.Obj? || tx.Null?)
    else m[s.name].Arr? && ReadyList(m[s.name].items, path, tx, p0)
  }

  predicate ReadyList(items: seq<Json>, path: seq<Step>, tx: Json, p0: Print)
    requires path != []
    decreases |path|, 0
  {
    var n := FirstEntry(items, path[0].key, p0);
    if n < |items| then path[1..] == [] || Ready(items[n], path[1..], tx, p0) else path[1..] == [] && tx.Obj?
  }

  /** What an update stores at its target: the cleaned value, with the key leaves of an entry. */
  function Stored(tx: Json, s: Step): Json {
    if s.key == map[] then tx
    else Obj((if tx.Obj? then tx.fields else map[]) + KeyLeaves(s.key))
  }

  // ---------------------------------------------------------------- one step of each action

  lemma ViewMap(m: map<string, Json>, path: seq<Step>, p0: Print)
    requires path != []
    ensures var s, rest := path[0], path[1..];
            View(Obj(m), path, p0) ==
              if s.name !in m then None
              else if s.key != map[] then View(m[s.name], path, p0)
              else if rest == [] then Some(m[s.name]) else View(m[s.name], rest, p0)
  {
    assert Parse(Get, Obj(m), path, Null, p0) == ParseMap(Get, m, path, Null, p0);
  }

  lemma ViewList(items: seq<Json>, path: seq<Step>, p0: Print)
    requires path != []
    ensures var s, rest := path[0], path[1..];
            var n := FirstEntry(items, s.key, p0);
            && n <= |items|
            && View(Arr(items), path, p0) ==
                 if s.key == map[] || n == |items| then None
                 else if rest == [] then Some(items[n]) else View(items[n], rest, p0)
  {
    assert Parse(Get, Arr(items), path, Null, p0) == ParseList(Get, items, path, Null, p0);
    FirstMeaning(items, path[0].key, p0);
  }

  lemma PutMap(m: map<string, Json>, path: seq<Step>, tx: Json, p0: Print)
    requires path != [] && Ready(Obj(m), path, tx, p0)
    ensures var s, rest := path[0], path[1..];
            Put(Obj(m), path, tx, p0) == Obj(m[s.name :=
              if s.key == map[] then (if rest == [] then tx else Put(Below(m, s.name), rest, tx, p0))
              else if s.name in m then Put(m[s.name], path, tx, p0)
              else Arr(NewEntries(tx, s.ck))])
  {
    assert Parse(Change, Obj(m), path, tx, p0) == ParseMap(Change, m, path, tx, p0);
  }

  /** The entry an update leaves: the stored value, or the entry updated below. */
  function EntryPut(items: seq<Json>, path: seq<Step>, tx: Json, p0: Print): Json
    requires path != []
  {
    var n := FirstEntry(items, path[0].key, p0);
    if path[1..] == [] || n >= |items| then Stored(tx, path[0]) else Put(items[n], path[1..], tx, p0)
  }

  lemma PutList(items: seq<Json>, path: seq<Step>, tx: Json, p0: Print)
    requires path != [] && path[0].key != map[] && path[0].ck == path[0].key && ReadyList(items, path, tx, p0)
    ensures var n := FirstEntry(items, path[0].key, p0);
            var e := EntryPut(items, path, tx, p0);
            && n <= |items|
            && Put(Arr(items), path, tx, p0) == Arr(if n < |items| then items[n := e] else items + [e])
  {
    assert Parse(Change, Arr(items), path, tx, p0) == ParseList(Change, items, path, tx, p0);
    FirstMeaning(items, path[0].key, p0);
    assert map[] + KeyLeaves(path[0].key) == KeyLeaves(path[0].key);
  }

  lemma DelMap(m: map<string, Json>, path: seq<Step>, p0: Print)
    requires path != []
    ensures var s, rest := path[0], path[1..];
            Del(Obj(m), path, p0) ==
              if s.name !in m then Obj(m)
              else if s.key == map[] then
                (if rest == [] then Obj(m - {s.name}) else Obj(m[s.name := Del(m[s.name], rest, p0)]))
              else if rest == [] && Del(m[s.name], path, p0) == Arr([]) then Obj(m - {s.name})
              else Obj(m[s.name := Del(m[s.name], path, p0)])
  {
    assert Parse(Delete, Obj(m), path, Null, p0) == ParseMap(Delete, m, path, Null, p0);
  }

  lemma DelList(items: seq<Json>, path: seq<Step>, p0: Print)
    requires path != []
    ensures var s, rest := path[0], path[1..];
            var n := FirstEntry(items, s.key, p0);
            && n <= |items|
            && Del(Arr(items), path, p0) ==
                 if s.key == map[] || n == |items| then Arr(items)
                 else if rest == [] then Arr(items[..n] + items[n + 1..])
                 else Arr(items[n := Del(items[n], rest, p0)])
  {
    assert Parse(Delete, Arr(items), path, Null, p0) == ParseList(Delete, items, path, Null, p0);
    FirstMeaning(items, path[0].key, p0);
  }

  // ---------------------------------------------------------------- entries

  lemma StoredIsEntry(tx: Json, s: Step, p0: Print)
    requires s.key != map[]
    ensures IsEntry(Stored(tx, s), s.key, p0)
  {
  }

  /** Writing an entry of the key where the first one is, or at the end, makes it the first one. */
  lemma FirstAfter(items: seq<Json>, key: map<string, string>, p0: Print, n: nat, e: Json)
    requires n == FirstEntry(items, key, p0) && IsEntry(e, key, p0)
    ensures n < |items| ==> FirstEntry(items[n := e], key, p0) == n
    ensures n == |items| ==> FirstEntry(items + [e], key, p0) == n
  {
    FirstMeaning(items, key, p0);
    if n < |items| { FirstIs(items[n := e], key, p0, n); }
    if n == |items| { FirstIs(items + [e], key, p0, n); }
  }

  /** Below an entry, a path can only be ready at a key leaf if it ends there. */
  lemma ReadyKeyName(x: Json, key: map<string, string>, path: seq<Step>, tx: Json, p0: Print)
    requires path != [] && Ready(x, path, tx, p0) && IsEntry(x, key, p0) && path[0].name in key
    ensures |path| == 1 && path[0].key == map[]
  {
    assert PathPresent.KeyMatches(x.fields[path[0].name], key[path[0].name], p0);
  }

  /** An update below an entry leaves it an entry of its key unless it gives a key leaf another value. */
  lemma BelowStaysEntry(x: Json, key: map<string, string>, path: seq<Step>, tx: Json, p0: Print)
    requires path != [] && Ready(x, path, tx, p0) && IsEntry(x, key, p0)
    ensures var name := path[0].name;
            IsEntry(Put(x, path, tx, p0), key, p0) <==>
              (name in key ==> PathPresent.KeyMatches(tx, key[name], p0))
  {
    PutMap(x.fields, path, tx, p0);
    if path[0].name in key { ReadyKeyName(x, key, path, tx, p0); }
    hide Put, Ready;
    var m := Put(x, path, tx, p0).fields;
    assert forall k | k in x.fields && k != path[0].name :: k in m && m[k] == x.fields[k];
  }

  lemma EntryPutIsEntry(items: seq<Json>, path: seq<Step>, tx: Json, p0: Print)
    requires path != [] && path[0].key != map[] && ReadyList(items, path, tx, p0)
    ensures IsEntry(EntryPut(items, path, tx, p0), path[0].key, p0) <==> (|path| == 2 ==> KeyLeafKept(path, tx, p0))
  {
    var n := FirstEntry(items, path[0].key, p0);
    FirstMeaning(items, path[0].key, p0);
    if path[1..] == [] || n >= |items| {
      StoredIsEntry(tx, path[0], p0);
    } else {
      BelowStaysEntry(items[n], path[0].key, path[1..], tx, p0);
      if path[1].name in path[0].key { ReadyKeyName(items[n], path[0].key, path[1..], tx, p0); }
    }
  }

  lemma NewListIsStored(tx: Json, s: Step)
    requires s.key != map[] && s.ck == s.key && (tx.Obj? || tx.Null?)
    ensures NewEntries(tx, s.ck) == [Stored(tx, s)]
  {
    assert map[] + KeyLeaves(s.key) == KeyLeaves(s.key);
  }

  // ---------------------------------------------------------------- get after update

  /** Get after update yields what was stored, exactly when the update does not give a key leaf of
      the path another value. */
  lemma {:induction false} GetAfterUpdate(x: Json, path: seq<Step>, tx: Json, p0: Print)
    requires path != [] && Ready(x, path, tx, p0) && CleanKeys(path)
    ensures View(Put(x, path, tx, p0), path, p0) == Some(Stored(tx, path[|path| - 1])) <==> KeyLeafKept(path, tx, p0)
    decreases |path|, 1
  {
    hide Put, View, Stored, CleanKeys, KeyLeafKept;
    var s, rest, m := path[0], path[1..], x.fields;
    RestClean(path);
    RestKept(path, tx, p0);
    if |path| == 1 { ShortIsKept(path, tx, p0); }
    PutMap(m, path, tx, p0);
    ViewMap(Put(x, path, tx, p0).fields, path, p0);
    if rest != [] { assert rest[|rest| - 1] == path[|path| - 1]; }
    if s.key == map[] {
      if rest == [] { StoredPlain(tx, s); } else { GetAfterUpdate(Below(m, s.name), rest, tx, p0); }
    } else if s.name in m {
      GetAfterUpdateInList(m[s.name].items, path, tx, p0);
    } else {
      NewListIsStored(tx, s);
      StoredIsEntry(tx, s, p0);
      FirstIs([Stored(tx, s)], s.key, p0, 0);
      ViewList([Stored(tx, s)], path, p0);
    }
  }

  lemma ShortIsKept(path: seq<Step>, tx: Json, p0: Print)
    requires |path| == 1
    ensures KeyLeafKept(path, tx, p0)
  {
  }

  lemma StoredPlain(tx: Json, s: Step)
    requires s.key == map[]
    ensures Stored(tx, s) == tx
  {
  }

  lemma {:induction false} GetAfterUpdateInList(items: seq<Json>, path: seq<Step>, tx: Json, p0: Print)
    requires path != [] && path[0].key != map[] && ReadyList(items, path, tx, p0) && CleanKeys(path)
    ensures View(Put(Arr(items), path, tx, p0), path, p0) == Some(Stored(tx, path[|path| - 1]))
        <==> KeyLeafKept(path, tx, p0)
    decreases |path|, 0
  {
    hide Put, View, Stored, CleanKeys, KeyLeafKept;
    var s, rest := path[0], path[1..];
    var n, e := FirstEntry(items, s.key, p0), EntryPut(items, path, tx, p0);
    RestClean(path);
    RestKept(path, tx, p0);
    if |path| == 1 { ShortIsKept(path, tx, p0); }
    PutList(items, path, tx, p0);
    EntryPutIsEntry(items, path, tx, p0);
    var l := Put(Arr(items), path, tx, p0).items;
    ViewList(l, path, p0);
    if IsEntry(e, s.key, p0) {
      FirstAfter(items, s.key, p0, n, e);
      if rest != [] {
        assert rest[|rest| - 1] == path[|path| - 1];
        GetAfterUpdate(items[n], rest, tx, p0);
      }
    } else {
      FirstMeaning(items, s.key, p0);
      FirstMeaning(l, s.key, p0);
      var f := FirstEntry(l, s.key, p0);
      if f < |l| { OtherKeyLeaf(l[f], path, items[n], tx, p0); }
    }
  }

  /** Where the value does not match the key, an entry of the key shows another value there. */
  lemma OtherKeyLeaf(x: Json, path: seq<Step>, y: Json, tx: Json, p0: Print)
    requires |path| == 2 && !KeyLeafKept(path, tx, p0) && IsEntry(x, path[0].key, p0)
    requires Ready(y, path[1..], tx, p0) && IsEntry(y, path[0].key, p0)
    ensures View(x, path[1..], p0) != Some(Stored(tx, path[1]))
  {
    ReadyKeyName(y, path[0].key, path[1..], tx, p0);
    ViewMap(x.fields, path[1..], p0);
    var name := path[1].name;
    assert PathPresent.KeyMatches(x.fields[name], path[0].key[name], p0);
  }

  /** An entry that is not there yet comes into being exactly when the value is a map. */
  lemma {:induction false} AbsentEntryNeedsMap(items: seq<Json>, s: Step, tx: Json, p0: Print)
    requires s.key != map[] && CleanKeys([s]) && FirstEntry(items, s.key, p0) == |items|
    ensures View(Put(Arr(items), [s], tx, p0), [s], p0).Some? <==> tx.Obj?
  {
    hide View;
    var path := [s];
    assert path[1..] == [];
    if tx.Obj? {
      GetAfterUpdateInList(items, path, tx, p0);
    } else {
      assert Parse(Change, Arr(items), path, tx, p0) == ParseList(Change, items, path, tx, p0);
      ViewList(items, path, p0);
    }
  }

  // ---------------------------------------------------------------- update after update

  /** A second update of the same target can be made, whatever its value. */
  lemma {:induction false} StaysReady(x: Json, path: seq<Step>, t1: Json, t2: Json, p0: Print)
    requires path != [] && Ready(x, path, t1, p0) && CleanKeys(path) && KeyLeafKept(path, t1, p0)
    ensures Ready(Put(x, path, t1, p0), path, t2, p0)
    decreases |path|, 1
  {
    hide Put, Stored, CleanKeys, KeyLeafKept;
    var s, rest, m := path[0], path[1..], x.fields;
    RestClean(path);
    RestKept(path, t1, p0);
    PutMap(m, path, t1, p0);
    if s.key == map[] {
      if rest != [] { StaysReady(Below(m, s.name), rest, t1, t2, p0); }
    } else if s.name in m {
      StaysReadyInList(m[s.name].items, path, t1, t2, p0);
      PutList(m[s.name].items, path, t1, p0);
    } else {
      NewListIsStored(t1, s);
      StoredIsEntry(t1, s, p0);
      FirstIs([Stored(t1, s)], s.key, p0, 0);
    }
  }

  lemma {:induction false} StaysReadyInList(items: seq<Json>, path: seq<Step>, t1: Json, t2: Json, p0: Print)
    requires path != [] && path[0].key != map[] && ReadyList(items, path, t1, p0)
    requires CleanKeys(path) && KeyLeafKept(path, t1, p0)
    ensures Put(Arr(items), path, t1, p0).Arr?
    ensures ReadyList(Put(Arr(items), path, t1, p0).items, path, t2, p0)
    decreases |path|, 0
  {
    hide Put, Stored, Ready, CleanKeys, KeyLeafKept;
    var s, rest := path[0], path[1..];
    var n := FirstEntry(items, s.key, p0);
    RestClean(path);
    RestKept(path, t1, p0);
    PutList(items, path, t1, p0);
    EntryPutIsEntry(items, path, t1, p0);
    FirstAfter(items, s.key, p0, n, EntryPut(items, path, t1, p0));
    if rest != [] { StaysReady(items[n], rest, t1, t2, p0); }
    assert Put(Arr(items), path, t1, p0).items[n] == EntryPut(items, path, t1, p0);
  }

  /** Of two updates of the same target the last stays, exactly when the first one does not give a
      key leaf of the path another value. */
  lemma {:induction false} UpdateAfterUpdate(x: Json, path: seq<Step>, t1: Json, t2: Json, p0: Print)
    requires path != [] && Ready(x, path, t1, p0) && Ready(x, path, t2, p0) && CleanKeys(path)
    ensures KeyLeafKept(path, t1, p0) ==> Put(Put(x, path, t1, p0), path, t2, p0) == Put(x, path, t2, p0)
    ensures Put(Put(x, path, t1, p0), path, t2, p0) == Put(x, path, t2, p0) && t1 != t2 ==> KeyLeafKept(path, t1, p0)
    decreases |path|, 1
  {
    hide Put, Stored, CleanKeys, KeyLeafKept;
    var s, rest, m := path[0], path[1..], x.fields;
    RestClean(path);
    RestKept(path, t1, p0);
    PutMap(m, path, t1, p0);
    PutMap(m, path, t2, p0);
    var m' := Put(x, path, t1, p0).fields;
    PutAgain(m', path, t2, p0);
    if |path| == 1 { ShortIsKept(path, t1, p0); }
    if s.key == map[] {
      if rest != [] { UpdateAfterUpdate(Below(m, s.name), rest, t1, t2, p0); }
    } else if s.name in m {
      UpdateTwiceInList(m[s.name].items, path, t1, t2, p0);
    } else {
      NewListTwice(path, t1, t2, p0);
    }
    OneKey(m, s.name, Put(x, path, t2, p0).fields[s.name], Put(Obj(m'), path, t2, p0).fields[s.name]);
  }

  /** An update where the field is there already, ready or not. */
  lemma PutAgain(m: map<string, Json>, path: seq<Step>, tx: Json, p0: Print)
    requires path != [] && path[0].name in m
    ensures var s, rest := path[0], path[1..];
            Put(Obj(m), path, tx, p0) == Obj(m[s.name :=
              if s.key != map[] then Put(m[s.name], path, tx, p0)
              else if rest == [] then tx else Put(m[s.name], rest, tx, p0)])
  {
    assert Parse(Change, Obj(m), path, tx, p0) == ParseMap(Change, m, path, tx, p0);
  }

  lemma OneKey(m: map<string, Json>, k: string, a: Json, b: Json)
    ensures m[k := a] == m[k := b] <==> a == b
  {
    assert m[k := a][k] == a && m[k := b][k] == b;
  }

  lemma {:induction false} UpdateTwiceInList(items: seq<Json>, path: seq<Step>, t1: Json, t2: Json, p0: Print)
    requires path != [] && path[0].key != map[] && CleanKeys(path)
    requires ReadyList(items, path, t1, p0) && ReadyList(items, path, t2, p0)
    ensures var a, b := Put(Put(Arr(items), path, t1, p0), path, t2, p0), Put(Arr(items), path, t2, p0);
            (KeyLeafKept(path, t1, p0) ==> a == b) && (a == b && t1 != t2 ==> KeyLeafKept(path, t1, p0))
    decreases |path|, 0
  {
    hide Put, Stored, Ready, CleanKeys, KeyLeafKept;
    var s, rest := path[0], path[1..];
    var n := FirstEntry(items, s.key, p0);
    RestClean(path);
    RestKept(path, t1, p0);
    if |path| == 1 { ShortIsKept(path, t1, p0); }
    PutList(items, path, t1, p0);
    PutList(items, path, t2, p0);
    EntryPutIsEntry(items, path, t1, p0);
    var e1, e2 := EntryPut(items, path, t1, p0), EntryPut(items, path, t2, p0);
    var l := Put(Arr(items), path, t1, p0).items;
    assert l[n] == e1;
    if IsEntry(e1, s.key, p0) {
      FirstAfter(items, s.key, p0, n, e1);
      PutListAgain(l, path, t2, p0);
      if rest != [] { UpdateAfterUpdate(items[n], rest, t1, t2, p0); }
      SetTwice(items, n, e1, if rest == [] then e2 else Put(e1, rest, t2, p0));
      assert (if n < |items| then items[n := e2] else items + [e2])[n] == e2;
    } else {
      OthersPutAside(l, path, n, t2, p0);
      FirstMeaning(items, s.key, p0);
      KeyLeavesDiffer(items[n], path, t1, t2, p0);
    }
  }

  /** An update of an existing entry, ready or not. */
  lemma PutListAgain(items: seq<Json>, path: seq<Step>, tx: Json, p0: Print)
    requires path != [] && path[0].key != map[] && FirstEntry(items, path[0].key, p0) < |items|
    ensures var n, rest := FirstEntry(items, path[0].key, p0), path[1..];
            Put(Arr(items), path, tx, p0) ==
              Arr(items[n := if rest == [] then Stored(tx, path[0]) else Put(items[n], rest, tx, p0)])
  {
    assert Parse(Change, Arr(items), path, tx, p0) == ParseList(Change, items, path, tx, p0);
    assert map[] + KeyLeaves(path[0].key) == KeyLeaves(path[0].key);
  }

  /** An update below another entry, or below none, leaves this one. */
  lemma OthersPutAside(items: seq<Json>, path: seq<Step>, n: nat, tx: Json, p0: Print)
    requires |path| > 1 && path[0].key != map[] && n < |items| && !IsEntry(items[n], path[0].key, p0)
    ensures var r := Put(Arr(items), path, tx, p0); r.Arr? && |r.items| == |items| && r.items[n] == items[n]
  {
    assert Parse(Change, Arr(items), path, tx, p0) == ParseList(Change, items, path, tx, p0);
    FirstMeaning(items, path[0].key, p0);
  }

  lemma KeyLeavesDiffer(x: Json, path: seq<Step>, t1: Json, t2: Json, p0: Print)
    requires |path| == 2 && !KeyLeafKept(path, t1, p0) && IsEntry(x, path[0].key, p0)
    requires Ready(x, path[1..], t1, p0) && Ready(x, path[1..], t2, p0)
    ensures t1 != t2 ==> Put(x, path[1..], t1, p0) != Put(x, path[1..], t2, p0)
  {
    ReadyKeyName(x, path[0].key, path[1..], t1, p0);
    PutMap(x.fields, path[1..], t1, p0);
    PutMap(x.fields, path[1..], t2, p0);
    OneKey(x.fields, path[1].name, t1, t2);
  }

  lemma SetTwice(items: seq<Json>, n: nat, a: Json, b: Json)
    requires n <= |items|
    ensures n < |items| ==> items[n := a][n := b] == items[n := b]
    ensures n == |items| ==> (items + [a])[n := b] == items + [b]
  {
  }

  lemma {:induction false} NewListTwice(path: seq<Step>, t1: Json, t2: Json, p0: Print)
    requires |path| == 1 && path[0].key != map[] && path[0].ck == path[0].key
    requires (t1.Obj? || t1.Null?) && (t2.Obj? || t2.Null?)
    ensures Put(Arr(NewEntries(t1, path[0].ck)), path, t2, p0) == Arr(NewEntries(t2, path[0].ck))
  {
    var s := path[0];
    NewListIsStored(t1, s);
    NewListIsStored(t2, s);
    StoredIsEntry(t1, s, p0);
    FirstIs([Stored(t1, s)], s.key, p0, 0);
    PutList([Stored(t1, s)], path, t2, p0);
    assert [Stored(t1, s)][0 := Stored(t2, s)] == [Stored(t2, s)];
  }

  // ---------------------------------------------------------------- get after delete

  ghost predicate AtMostOne(items: seq<Json>, key: map<string, string>, p0: Print) {
    forall i, j | 0 <= i < j < |items| :: !(IsEntry(items[i], key, p0) && IsEntry(items[j], key, p0))
  }

  /** A delete at the end of the path takes the key of an entry: it removes the entry or a key leaf. */
  predicate TakesKey(path: seq<Step>)
    requires path != []
  {
    |path| == 1 || (|path| == 2 && path[1].key == map[] && path[1].name in path[0].key)
  }

  /** Where the path, if it exists, ends in an entry or in a key leaf of an entry, its list has no
      other entry of the same key. */
  ghost predicate Alone(x: Json, path: seq<Step>, p0: Print)
    requires path != []
    decreases |path|, x
  {
    var s, rest := path[0], path[1..];
    match x
    case Obj(m) =>
      s.name in m ==>
        if s.key != map[] then Alone(m[s.name], path, p0) else rest != [] ==> Alone(m[s.name], rest, p0)
    case Arr(items) =>
      var n := FirstEntry(items, s.key, p0);
      s.key != map[] && n < |items| ==>
        if TakesKey(path) then AtMostOne(items, s.key, p0) else Alone(items[n], rest, p0)
    case _ => true
  }

  /** After a delete a get finds nothing, whether or not there was something to delete, exactly when
      no other entry has the key of the one that is deleted. */
  lemma {:induction false} GetAfterDelete(x: Json, path: seq<Step>, p0: Print)
    requires path != []
    ensures View(Del(x, path, p0), path, p0) == None <==> Alone(x, path, p0)
    decreases |path|, x, 1
  {
    match x
    case Obj(m) => GetAfterDeleteInMap(m, path, p0);
    case Arr(items) => GetAfterDeleteInList(items, path, p0);
    case _ =>
  }

  lemma {:induction false} GetAfterDeleteInMap(m: map<string, Json>, path: seq<Step>, p0: Print)
    requires path != []
    ensures View(Del(Obj(m), path, p0), path, p0) == None <==> Alone(Obj(m), path, p0)
    decreases |path|, Obj(m), 0
  {
    hide Del, View;
    var s, rest := path[0], path[1..];
    DelMap(m, path, p0);
    ViewMap(Del(Obj(m), path, p0).fields, path, p0);
    if s.name in m && !(s.key == map[] && rest == []) {
      GetAfterDelete(m[s.name], if s.key == map[] then rest else path, p0);
      if s.key != map[] { ViewList([], path, p0); }
    }
  }

  /** A delete below an entry leaves it an entry of its key, unless it takes a key leaf. */
  lemma DelBelowStaysEntry(x: Json, key: map<string, string>, path: seq<Step>, p0: Print)
    requires path != [] && IsEntry(x, key, p0)
    ensures IsEntry(Del(x, path, p0), key, p0) <==> !(|path| == 1 && path[0].key == map[] && path[0].name in key)
  {
    var name := path[0].name;
    DelMap(x.fields, path, p0);
    if name in key {
      assert PathPresent.KeyMatches(x.fields[name], key[name], p0);
    }
    hide Del;
    var m := Del(x, path, p0).fields;
    assert forall k | k in x.fields && k != name :: k in m && m[k] == x.fields[k];
  }

  lemma {:induction false} GetAfterDeleteInList(items: seq<Json>, path: seq<Step>, p0: Print)
    requires path != []
    ensures View(Del(Arr(items), path, p0), path, p0) == None <==> Alone(Arr(items), path, p0)
    decreases |path|, Arr(items), 0
  {
    hide Del, View, IsEntry;
    var s, rest := path[0], path[1..];
    DelList(items, path, p0);
    ViewList(Del(Arr(items), path, p0).items, path, p0);
    var n := FirstEntry(items, s.key, p0);
    FirstMeaning(items, s.key, p0);
    if s.key != map[] && n < |items| {
      if rest == [] {
        EntryTaken(items, s.key, p0, n);
      } else {
        var e := Del(items[n], rest, p0);
        DelBelowStaysEntry(items[n], s.key, rest, p0);
        if TakesKey(path) {
          KeyLeafTaken(items, path, p0, n, e);
        } else {
          GetAfterDelete(items[n], rest, p0);
          FirstAfter(items, s.key, p0, n, e);
        }
      }
    }
  }

  /** Without the first entry of the key there is none, exactly when it was the only one. */
  lemma EntryTaken(items: seq<Json>, key: map<string, string>, p0: Print, n: nat)
    requires n < |items| && n == FirstEntry(items, key, p0)
    ensures var left := items[..n] + items[n + 1..];
            FirstEntry(left, key, p0) == |left| <==> AtMostOne(items, key, p0)
  {
    hide IsEntry;
    var left := items[..n] + items[n + 1..];
    FirstMeaning(items, key, p0);
    FirstMeaning(left, key, p0);
    assert forall j | n < j < |items| :: left[j - 1] == items[j];
    var g := FirstEntry(left, key, p0);
    if g < |left| { assert g >= n && left[g] == items[g + 1]; }
  }

  lemma KeyLeafTaken(items: seq<Json>, path: seq<Step>, p0: Print, n: nat, e: Json)
    requires |path| == 2 && path[1].key == map[] && path[1].name in path[0].key
    requires n < |items| && n == FirstEntry(items, path[0].key, p0) && !IsEntry(e, path[0].key, p0)
    ensures View(Arr(items[n := e]), path, p0) == None <==> AtMostOne(items, path[0].key, p0)
  {
    hide View;
    var l, key := items[n := e], path[0].key;
    ViewList(l, path, p0);
    FirstMeaning(items, key, p0);
    FirstMeaning(l, key, p0);
    var g := FirstEntry(l, key, p0);
    if g < |l| {
      assert g > n && l[g] == items[g];
      ViewMap(l[g].fields, path[1..], p0);
    } else {
      forall i, j | 0 <= i < j < |items| ensures !(IsEntry(items[i], key, p0) && IsEntry(items[j], key, p0)) {
        if i >= n { assert l[j] == items[j]; }
      }
    }
  }
}
