/** Writes of the JSON engine outside of the lens laws: into nothing, through parents that do not
    exist, and by create; and when the found flag is set. */
module JsonWrites {
  import opened Cleaning
  import opened Gnmi
  import opened JsonEngine
  import opened JsonLens
  import PathPresent

  // ---------------------------------------------------------------- which entry is found

  /** A get of a list entry finds the first one whose key leaves show the key, be they strings or
      numbers, and nothing exactly when there is none. */
  lemma GetFindsFirstEntry(items: seq<Json>, s: Step, p0: Print)
    requires s.key != map[]
    ensures View(Arr(items), [s], p0).None? <==>
              forall i | 0 <= i < |items| :: !PathPresent.ShowsKey(items[i], s.key, p0)
    ensures forall n | 0 <= n < |items| && PathPresent.ShowsKey(items[n], s.key, p0)
              && (forall i | 0 <= i < n :: !PathPresent.ShowsKey(items[i], s.key, p0)) ::
              View(Arr(items), [s], p0) == Some(items[n])
  {
    hide View;
    forall i | 0 <= i < |items| ensures IsEntry(items[i], s.key, p0) <==> PathPresent.ShowsKey(items[i], s.key, p0) {
      EntryShowsKey(items[i], s.key, p0);
    }
    hide IsEntry, PathPresent.ShowsKey;
    FirstMeaning(items, s.key, p0);
    ViewList(items, [s], p0);
    assert [s][1..] == [];
  }

  lemma EntryShowsKey(x: Json, key: map<string, string>, p0: Print)
    ensures IsEntry(x, key, p0) <==> PathPresent.ShowsKey(x, key, p0)
  {
    if x.Obj? { PathPresent.FindKeyShows(x, key, p0); }
  }

  // ---------------------------------------------------------------- writing into anything

  /** Whether an update through parents without keys lands at its path, on any tree.  A value takes
      the place of a parent that is nil, and its own fields are written instead. */
  predicate Lands(x: Json, path: seq<Step>, tx: Json, p0: Print)
    requires path != []
    decreases |path|, x
  {
    var s, rest := path[0], path[1..];
    match x
    case Obj(m) =>
      if rest != [] then Lands(Below(m, s.name), rest, tx, p0)
      else if s.key == map[] then true
      else if s.name in m then Lands(m[s.name], path, tx, p0)
      else tx.Obj? || tx.Null?
    case Arr(items) =>
      rest == [] && s.key != map[] && (tx.Obj? || FirstEntry(items, s.key, p0) < |items|)
    case Null =>
      if rest != [] then Lands(tx, rest, tx, p0) else s.key == map[] || tx.Obj? || tx.Null?
    case _ => false
  }

  /** On any tree, and for any value, a get after an update through parents without keys finds what
      was stored exactly when the update lands. */
  lemma {:induction false} LandsExactly(x: Json, path: seq<Step>, tx: Json, p0: Print)
    requires path != [] && CleanKeys(path) && forall i | 0 <= i < |path| - 1 :: path[i].key == map[]
    ensures View(Put(x, path, tx, p0), path, p0) == Some(Stored(tx, path[|path| - 1])) <==> Lands(x, path, tx, p0)
    decreases |path|, x
  {
    hide CleanKeys, Put, View, Stored, NewEntries, FirstEntry;
    var s, rest := path[0], path[1..];
    RestClean(path);
    if rest != [] { assert rest[|rest| - 1] == path[|path| - 1]; }
    match x
    case Obj(m) =>
      LandsInMap(m, path, tx, p0);
      if rest != [] {
        LandsExactly(Below(m, s.name), rest, tx, p0);
      } else if s.key != map[] && s.name in m {
        LandsExactly(m[s.name], path, tx, p0);
      }
    case Arr(items) => LandsInList(items, path, tx, p0);
    case Null =>
      PutNil(path, tx, p0);
      if rest != [] {
        LandsExactly(tx, rest, tx, p0);
      } else {
        assert path == [s];
        NewListView(map[], s, tx, p0);
      }
    case _ => NothingInScalar(x, path, tx, p0);
  }

  lemma NothingInScalar(x: Json, path: seq<Step>, tx: Json, p0: Print)
    requires path != [] && !x.Obj? && !x.Arr? && !x.Null?
    ensures View(Put(x, path, tx, p0), path, p0) == None
  {
  }

  /** A new list under a field shows the value if there is one to put into it. */
  lemma NewListView(m: map<string, Json>, s: Step, tx: Json, p0: Print)
    requires s.ck == s.key
    ensures var x := Obj(m[s.name := if s.key != map[] then Arr(NewEntries(tx, s.ck)) else tx]);
            View(x, [s], p0) == if s.key == map[] || tx.Obj? || tx.Null? then Some(Stored(tx, s)) else None
  {
    var l := NewEntries(tx, s.ck);
    ViewMap(m[s.name := if s.key != map[] then Arr(l) else tx], [s], p0);
    assert [s][1..] == [];
    if s.key != map[] {
      ViewList(l, [s], p0);
      if tx.Obj? || tx.Null? {
        NewListIsStored(tx, s);
        StoredIsEntry(tx, s, p0);
        FirstIs(l, s.key, p0, 0);
      }
    } else {
      StoredPlain(tx, s);
    }
  }

  lemma LandsInMap(m: map<string, Json>, path: seq<Step>, tx: Json, p0: Print)
    requires path != [] && path[0].ck == path[0].key && (|path| > 1 ==> path[0].key == map[])
    ensures var s, rest := path[0], path[1..];
            var v := View(Put(Obj(m), path, tx, p0), path, p0);
            if rest != [] then v == View(Put(Below(m, s.name), rest, tx, p0), rest, p0)
            else if s.key != map[] && s.name in m then v == View(Put(m[s.name], path, tx, p0), path, p0)
            else v == if s.key == map[] || tx.Obj? || tx.Null? then Some(Stored(tx, s)) else None
  {
    var s, rest := path[0], path[1..];
    assert Parse(Change, Obj(m), path, tx, p0) == ParseMap(Change, m, path, tx, p0);
    if rest == [] {
      assert path == [s];
      NewListView(m, s, tx, p0);
      if s.name in m { PutAgain(m, path, tx, p0); }
    }
    ViewMap(Put(Obj(m), path, tx, p0).fields, path, p0);
  }

  lemma LandsInList(items: seq<Json>, path: seq<Step>, tx: Json, p0: Print)
    requires path != [] && path[0].ck == path[0].key && (|path| > 1 ==> path[0].key == map[])
    ensures View(Put(Arr(items), path, tx, p0), path, p0)
         == if |path| == 1 && path[0].key != map[] && (tx.Obj? || FirstEntry(items, path[0].key, p0) < |items|)
            then Some(Stored(tx, path[0])) else None
  {
    var s := path[0];
    var n := FirstEntry(items, s.key, p0);
    assert Parse(Change, Arr(items), path, tx, p0) == ParseList(Change, items, path, tx, p0);
    FirstMeaning(items, s.key, p0);
    if |path| == 1 && s.key != map[] && (tx.Obj? || n < |items|) {
      PutList(items, path, tx, p0);
      StoredIsEntry(tx, s, p0);
      FirstAfter(items, s.key, p0, n, Stored(tx, s));
    }
    ViewList(Put(Arr(items), path, tx, p0).items, path, p0);
  }

  lemma PutNil(path: seq<Step>, tx: Json, p0: Print)
    requires path != [] && (|path| > 1 ==> path[0].key == map[])
    ensures var s, rest := path[0], path[1..];
            && Put(Null, path, tx, p0)
               == Obj(map[][s.name := if rest != [] then Put(tx, rest, tx, p0)
                                      else if s.key != map[] then Arr(NewEntries(tx, s.ck)) else tx])
            && (rest != [] ==> View(Put(Null, path, tx, p0), path, p0) == View(Put(tx, rest, tx, p0), rest, p0))
  {
    assert Parse(Change, Null, path, tx, p0) == ParseNil(Change, path, tx, p0);
    ViewMap(Put(Null, path, tx, p0).fields, path, p0);
  }

  /** Writing into nothing: with one element, or the value nil, the update lands, unless there is no
      map for a keyed element; a scalar is lost in the place of the first parent. */
  lemma {:induction false} NilLands(path: seq<Step>, tx: Json, p0: Print)
    requires path != []
    ensures |path| == 1 ==> (Lands(Null, path, tx, p0) <==> path[0].key == map[] || tx.Obj? || tx.Null?)
    ensures tx.Null? ==> Lands(Null, path, tx, p0)
    ensures |path| > 1 && !tx.Null? && !tx.Obj? && !tx.Arr? ==> !Lands(Null, path, tx, p0)
    ensures |path| > 1 && tx.Obj? && path[1].name !in tx.fields ==> Lands(Null, path, tx, p0)
    decreases |path|
  {
    if |path| > 1 {
      var rest := path[1..];
      if tx.Null? { NilLands(rest, tx, p0); }
      if tx.Obj? && rest[0].name !in tx.fields && |rest| > 1 { EmptyLands(rest[1..], tx, p0); }
    }
  }

  lemma {:induction false} EmptyLands(path: seq<Step>, tx: Json, p0: Print)
    requires path != []
    ensures Lands(Obj(map[]), path, tx, p0) <==> path[|path| - 1].key == map[] || tx.Obj? || tx.Null?
    decreases |path|
  {
    if |path| > 1 {
      assert path[1..][|path| - 2] == path[|path| - 1];
      EmptyLands(path[1..], tx, p0);
    }
  }

  /** Below a keyed parent that is nil nothing is stored at the path: the value itself becomes an
      entry of the parent, the list takes the place of the map that should hold it, and the rest of
      the path is looked for in this list again. */
  lemma NilKeyedParent(path: seq<Step>, tx: Json, p0: Print)
    requires |path| > 1 && path[0].key != map[] && CleanKeys(path)
    ensures var e := Stored(tx, path[0]);
            Put(Null, path, tx, p0) ==
            if !tx.Obj? && !tx.Null? then Arr([])
            else if path[1].key == map[] || !PathPresent.ShowsKey(e, path[1].key, p0) then Arr([e])
            else if |path| == 2 then Arr([Stored(tx, path[1])]) else Arr([Put(e, path[2..], tx, p0)])
  {
    hide Put, CleanKeys, NewEntries, Stored, IsEntry, PathPresent.ShowsKey;
    RestClean(path);
    RestClean(path[1..]);
    var s, e, rest := path[0], Stored(tx, path[0]), path[1..];
    PutNilList(path, tx, p0);
    NewListFirst(s, tx, p0);
    if tx.Obj? || tx.Null? {
      assert rest[1..] == path[2..];
      EntryShowsKey(e, path[1].key, p0);
      if path[1].key != map[] && IsEntry(e, path[1].key, p0) {
        FirstIs([e], path[1].key, p0, 0);
        PutListAgain([e], rest, tx, p0);
      } else {
        if path[1].key != map[] { FirstIs([e], path[1].key, p0, 1); }
        NoEntryPut([e], rest, tx, p0);
      }
    } else {
      NoEntryPut([], rest, tx, p0);
    }
  }

  /** An update in a list without the entry adds at most one at the end. */
  lemma NoEntryPut(items: seq<Json>, path: seq<Step>, tx: Json, p0: Print)
    requires path != [] && (path[0].key == map[] || FirstEntry(items, path[0].key, p0) == |items|)
    ensures var r := Put(Arr(items), path, tx, p0); r.Arr? && |items| <= |r.items| && r.items[..|items|] == items
  {
    assert Parse(Change, Arr(items), path, tx, p0) == ParseList(Change, items, path, tx, p0);
    FirstMeaning(items, path[0].key, p0);
  }

  lemma NewListFirst(s: Step, tx: Json, p0: Print)
    requires s.key != map[] && s.ck == s.key
    ensures NewEntries(tx, s.ck) == if tx.Obj? || tx.Null? then [Stored(tx, s)] else []
    ensures FirstEntry(NewEntries(tx, s.ck), s.key, p0) == 0
  {
    if tx.Obj? || tx.Null? {
      NewListIsStored(tx, s);
      StoredIsEntry(tx, s, p0);
    }
  }

  lemma PutNilList(path: seq<Step>, tx: Json, p0: Print)
    requires |path| > 1 && path[0].key != map[]
    ensures var l := NewEntries(tx, path[0].ck);
            var y := Put(Arr(l), path[1..], tx, p0);
            Put(Null, path, tx, p0) == Arr(if y.Arr? && |l| <= |y.items| then y.items[..|l|] else l)
  {
    assert Parse(Change, Null, path, tx, p0) == ParseNil(Change, path, tx, p0);
  }

  /** Below a keyed parent that does not exist the update is made in a map where later reads expect a
      list: it is found without the key and not with it. */
  lemma MissingKeyedParent(m: map<string, Json>, path: seq<Step>, tx: Json, p0: Print)
    requires |path| > 1 && path[0].key != map[] && path[0].name !in m && path[1].name != path[0].name
    ensures var x := Put(Obj(m), path, tx, p0);
            && View(x, path, p0) == None
            && View(x, [path[0].(key := map[])] + path[1..], p0)
               == View(Put(Obj(map[]), path[1..], tx, p0), path[1..], p0)
  {
    var s, rest := path[0], path[1..];
    var plain := [s.(key := map[])] + rest;
    assert plain[1..] == rest;
    assert Parse(Change, Obj(m), path, tx, p0) == ParseMap(Change, m, path, tx, p0);
    assert Parse(Change, Obj(map[]), rest, tx, p0) == ParseMap(Change, map[], rest, tx, p0);
    var x := Put(Obj(m), path, tx, p0);
    ViewMap(x.fields, path, p0);
    ViewMap(x.fields, plain, p0);
    ViewMap(x.fields[s.name].fields, path, p0);
  }

  // ---------------------------------------------------------------- create, and the found flag

  /** Create does what an update does, except that it leaves an entry that is found as it is. */
  lemma {:induction false} CreateIsUpdate(x: Json, path: seq<Step>, tx: Json, p0: Print)
    requires path != []
    ensures var c, u := Parse(Create, x, path, tx, p0), Parse(Change, x, path, tx, p0);
            && c.found == u.found
            && (path[|path| - 1].key == map[] || !u.found ==> c == u)
    decreases |path|, x
  {
    var s, rest := path[0], path[1..];
    if rest != [] { assert rest[|rest| - 1] == path[|path| - 1]; }
    match x
    case Obj(m) =>
      if s.name in m {
        if s.key != map[] {
          CreateIsUpdate(m[s.name], path, tx, p0);
        } else if rest != [] {
          CreateIsUpdate(m[s.name], rest, tx, p0);
        }
      } else if rest != [] {
        CreateIsUpdate(Obj(map[]), rest, tx, p0);
      }
    case Arr(items) =>
      if s.key != map[] && FirstEntry(items, s.key, p0) < |items| && rest != [] {
        CreateIsUpdate(items[FirstEntry(items, s.key, p0)], rest, tx, p0);
      }
    case Null =>
      if rest != [] { CreateIsUpdate(if s.key != map[] then Arr(NewEntries(tx, s.ck)) else tx, rest, tx, p0); }
    case _ =>
  }

  /** An entry that exists is not changed by create. */
  lemma {:induction false} CreateKeepsEntry(x: Json, path: seq<Step>, tx: Json, p0: Print)
    requires path != [] && path[|path| - 1].key != map[] && View(x, path, p0).Some?
    ensures Parse(Create, x, path, tx, p0) == Res(x, true)
    decreases |path|, x
  {
    var s, rest := path[0], path[1..];
    if rest != [] { assert rest[|rest| - 1] == path[|path| - 1]; }
    match x
    case Obj(m) =>
      ViewMap(m, path, p0);
      assert Parse(Create, x, path, tx, p0) == ParseMap(Create, m, path, tx, p0);
      CreateKeepsEntry(m[s.name], if s.key != map[] then path else rest, tx, p0);
      assert m[s.name := m[s.name]] == m;
    case Arr(items) =>
      ViewList(items, path, p0);
      assert Parse(Create, x, path, tx, p0) == ParseList(Create, items, path, tx, p0);
      var n := FirstEntry(items, s.key, p0);
      if rest != [] { CreateKeepsEntry(items[n], rest, tx, p0); }
      assert items[n := items[n]] == items;
  }

  /** The found flag of a delete tells whether there was something at the path. */
  lemma {:induction false} DeleteTellsFound(x: Json, path: seq<Step>, p0: Print)
    requires path != []
    ensures Parse(Delete, x, path, Null, p0).found <==> View(x, path, p0).Some?
    decreases |path|, x
  {
    var s, rest := path[0], path[1..];
    match x
    case Obj(m) =>
      ViewMap(m, path, p0);
      assert Parse(Delete, x, path, Null, p0) == ParseMap(Delete, m, path, Null, p0);
      if s.name in m && !(s.key == map[] && rest == []) {
        DeleteTellsFound(m[s.name], if s.key != map[] then path else rest, p0);
      }
    case Arr(items) =>
      ViewList(items, path, p0);
      assert Parse(Delete, x, path, Null, p0) == ParseList(Delete, items, path, Null, p0);
      var n := FirstEntry(items, s.key, p0);
      if s.key != map[] && n < |items| && rest != [] { DeleteTellsFound(items[n], rest, p0); }
    case _ =>
  }

  /** A delete of the only entry of a list takes the list away with it. */
  lemma DeleteDropsEmptyList(m: map<string, Json>, s: Step, p0: Print)
    requires s.key != map[] && s.name in m && m[s.name].Arr? && |m[s.name].items| == 1
    requires PathPresent.ShowsKey(m[s.name].items[0], s.key, p0)
    ensures Del(Obj(m), [s], p0) == Obj(m - {s.name})
  {
    var items := m[s.name].items;
    EntryShowsKey(items[0], s.key, p0);
    FirstIs(items, s.key, p0, 0);
    DelList(items, [s], p0);
    DelMap(m, [s], p0);
    assert items[..0] + items[1..] == [];
    assert [s][1..] == [];
  }

  /** So does that of an update, when it can be made. */
  lemma {:induction false} UpdateTellsFound(x: Json, path: seq<Step>, tx: Json, p0: Print)
    requires path != [] && Ready(x, path, tx, p0)
    ensures Parse(Change, x, path, tx, p0).found <==> View(x, path, p0).Some?
    decreases |path|
  {
    var s, rest, m := path[0], path[1..], x.fields;
    ViewMap(m, path, p0);
    assert Parse(Change, x, path, tx, p0) == ParseMap(Change, m, path, tx, p0);
    if s.key == map[] {
      if rest != [] {
        UpdateTellsFound(Below(m, s.name), rest, tx, p0);
        ViewMap(map[], rest, p0);
      }
    } else if s.name in m {
      var items := m[s.name].items;
      ViewList(items, path, p0);
      assert Parse(Change, Arr(items), path, tx, p0) == ParseList(Change, items, path, tx, p0);
      var n := FirstEntry(items, s.key, p0);
      if n < |items| && rest != [] { UpdateTellsFound(items[n], rest, tx, p0); }
    }
  }

  /** Get after create: the entry as it was if there was one, otherwise what was stored. */
  lemma GetAfterCreate(x: Json, path: seq<Step>, tx: Json, p0: Print)
    requires path != [] && Ready(x, path, tx, p0) && CleanKeys(path)
    ensures var last, now := path[|path| - 1], View(Parse(Create, x, path, tx, p0).json, path, p0);
            if last.key != map[] && View(x, path, p0).Some? then now == View(x, path, p0)
            else now == Some(Stored(tx, last)) <==> KeyLeafKept(path, tx, p0)
  {
    hide Parse, View, Ready, Stored, CleanKeys, KeyLeafKept;
    if path[|path| - 1].key != map[] && View(x, path, p0).Some? {
      CreateKeepsEntry(x, path, tx, p0);
    } else {
      UpdateTellsFound(x, path, tx, p0);
      CreateIsUpdate(x, path, tx, p0);
      GetAfterUpdate(x, path, tx, p0);
    }
  }
}
