/** Rebuilding a document from its leaf updates in the order of emission gives the document
    itself, with every list in its order. */
module ExactRebuild {
  import opened Gnmi
  import opened Documents
  import opened Rebuild
  import opened RoundTrip
  import opened EmissionOrder

  /** Every list of `p` follows the order of the list of `d`, from its first entry on. */
  ghost predicate InOrder(e: Entry, p: Json, d: Json)
    decreases p, 0
  {
    p.Obj? && d.Obj? ==>
      forall k | k in p.fields && k in d.fields :: FieldInOrder(Child(e, k), p.fields[k], d.fields[k])
  }

  ghost predicate FieldInOrder(c: Entry, x: Json, y: Json)
    decreases x, 1
  {
    && (x.Obj? && y.Obj? ==> InOrder(c, x, y))
    && (x.Arr? && y.Arr? && !IsLeaf(y) ==> ListInOrder(c, x.items, y.items))
  }

  ghost predicate ListInOrder(c: Entry, xs: seq<Json>, ys: seq<Json>)
    decreases xs
  {
    && |xs| <= |ys|
    && forall i | 0 <= i < |xs| :: KeyOf(c.keys, xs[i]) == KeyOf(c.keys, ys[i]) && InOrder(c, xs[i], ys[i])
  }

  /** All that has been seen is in the part. */
  ghost predicate Holds(e: Entry, p: Json, seen: set<Leaf>) {
    forall u | u in seen :: In(e, p, u.0, u.1)
  }

  lemma HoldsBelow(e: Entry, p: Json, seen: set<Leaf>, a: PathElem)
    requires Holds(e, p, seen) && a.key == map[]
    requires forall u | u in seen && u.0 != [] && u.0[0] == a :: |u.0| > 1
    ensures forall u | u in Under(seen, a) ::
              p.Obj? && a.name in p.fields && In(Child(e, a.name), p.fields[a.name], u.0, u.1)
  {
    forall u | u in Under(seen, a)
      ensures p.Obj? && a.name in p.fields && In(Child(e, a.name), p.fields[a.name], u.0, u.1)
    {
      var w :| w in seen && w.0 != [] && w.0[0] == a && u == (w.0[1..], w.1);
      assert In(e, p, w.0, w.1);
    }
  }

  /** Writing a leaf whose turn it is keeps the lists in order. */
  lemma {:induction false} AddKeepsOrder(e: Entry, p: Json, d: Json, q: seq<PathElem>, v: Json, seen: set<Leaf>)
    requires ValidObj(e, d) && In(e, d, q, v) && PartOrNil(e, p, d) && InOrder(e, p, d)
    requires Preceded(e, d, seen, q) && Holds(e, p, seen)
    ensures AddData(p, q, v).Ok? && InOrder(e, AddData(p, q, v).value, d)
    decreases |q|, 2
  {
    AddKeepsPart(e, p, d, q, v);
    InField(e, d, q, v);
    var k, rest := q[0].name, q[1..];
    if q[0].key != map[] {
      hide ValidObj, In, PartOrNil, InOrder, Preceded, Holds, Part;
      AddKeyedKeepsOrder(e, p, d, q, v, seen);
    } else if rest == [] {
      FieldStaysInOrder(e, p, d, k, v);
    } else {
      hide ValidObj, In, PartOrNil, InOrder, Preceded, Holds, Part;
      AddBelowKeepsOrder(e, p, d, q, v, seen);
    }
  }

  lemma {:induction false} AddBelowKeepsOrder(e: Entry, p: Json, d: Json, q: seq<PathElem>, v: Json, seen: set<Leaf>)
    requires ValidObj(e, d) && In(e, d, q, v) && PartOrNil(e, p, d) && InOrder(e, p, d)
    requires Preceded(e, d, seen, q) && Holds(e, p, seen) && q[0].key == map[] && |q| > 1
    ensures AddData(p, q, v).Ok? && InOrder(e, AddData(p, q, v).value, d)
    decreases |q|, 1
  {
    var k, rest := q[0].name, q[1..];
    var m := Fields(p).value;
    var c, y := Child(e, k), d.fields[k];
    assert ValidField(c, y);
    InField(e, d, q, v);
    if k in m {
      PartAt(e, p, d, k);
      assert FieldInOrder(c, m[k], y);
    }
    var x := if k in m then m[k] else Null;
    BelowContainer(e, p, d, q[0], seen);
    AddKeepsOrder(c, x, y, rest, v, Under(seen, q[0]));
    FieldStaysInOrder(e, p, d, k, AddData(x, rest, v).value);
  }

  lemma {:induction false} AddKeyedKeepsOrder(e: Entry, p: Json, d: Json, q: seq<PathElem>, v: Json, seen: set<Leaf>)
    requires ValidObj(e, d) && In(e, d, q, v) && PartOrNil(e, p, d) && InOrder(e, p, d)
    requires Preceded(e, d, seen, q) && Holds(e, p, seen) && q[0].key != map[]
    ensures AddData(p, q, v).Ok? && InOrder(e, AddData(p, q, v).value, d)
    decreases |q|, 1
  {
    KeyedReady(e, p, d, q, v);
    ListWasInOrder(e, p, d, q[0].name);
    var k, c := q[0].name, Child(e, q[0].name);
    hide ValidObj, In, PartOrNil, InOrder, Preceded, Holds, Part, PartList, ValidEntries, IsLeaf, AddEntry, EntryKey;
    EntryInTurn(e, p, d, q, v, seen);
    var l := AddEntry(ListAt(p, k), q[0].key, q[1..], v).value;
    assert AddData(p, q, v) == Ok(Obj(Fields(p).value[k := Arr(l)]));
    FieldStaysInOrder(e, p, d, k, Arr(l));
  }

  lemma ListWasInOrder(e: Entry, p: Json, d: Json, k: string)
    requires InOrder(e, p, d) && PartOrNil(e, p, d) && d.Obj? && k in d.fields
      && d.fields[k].Arr? && !IsLeaf(d.fields[k])
    ensures ListInOrder(Child(e, k), ListAt(p, k), d.fields[k].items)
  {
    if k in Fields(p).GetOr(map[]) { assert FieldInOrder(Child(e, k), p.fields[k], d.fields[k]); }
  }

  lemma FieldStaysInOrder(e: Entry, p: Json, d: Json, k: string, x': Json)
    requires Fields(p).Some? && InOrder(e, p, d) && d.Obj? && k in d.fields
    requires FieldInOrder(Child(e, k), x', d.fields[k])
    ensures InOrder(e, Obj(Fields(p).value[k := x']), d)
  {
    var p' := Obj(Fields(p).value[k := x']);
    forall k' | k' in p'.fields && k' in d.fields ensures FieldInOrder(Child(e, k'), p'.fields[k'], d.fields[k']) {
      if k' != k { assert FieldInOrder(Child(e, k'), p.fields[k'], d.fields[k']); }
    }
  }

  /** What has been seen below a container is in it. */
  lemma BelowContainer(e: Entry, p: Json, d: Json, a: PathElem, seen: set<Leaf>)
    requires PartOrNil(e, p, d) && Holds(e, p, seen) && a.key == map[]
    requires d.Obj? && a.name in d.fields && d.fields[a.name].Obj?
    ensures var m := Fields(p).value;
            Holds(Child(e, a.name), if a.name in m then m[a.name] else Null, Under(seen, a))
  {
    forall u | u in seen && u.0 != [] && u.0[0] == a ensures |u.0| > 1 {
      InField(e, p, u.0, u.1);
      PartAt(e, p, d, a.name);
    }
    HoldsBelow(e, p, seen, a);
  }

  /** The entry that is written is in the list already, at its own index, or is the next one. */
  lemma {:induction false} EntryInTurn(e: Entry, p: Json, d: Json, q: seq<PathElem>, v: Json, seen: set<Leaf>)
    requires ValidObj(e, d) && In(e, d, q, v) && PartOrNil(e, p, d) && q[0].key != map[] && |q| > 1
    requires q[0].name in d.fields && d.fields[q[0].name].Arr?
    requires ListInOrder(Child(e, q[0].name), ListAt(p, q[0].name), d.fields[q[0].name].items)
    requires Preceded(e, d, seen, q) && Holds(e, p, seen)
    ensures AddEntry(ListAt(p, q[0].name), q[0].key, q[1..], v).Ok?
    ensures ListInOrder(Child(e, q[0].name), AddEntry(ListAt(p, q[0].name), q[0].key, q[1..], v).value,
              d.fields[q[0].name].items)
    decreases |q|, 0
  {
    KeyedReady(e, p, d, q, v);
    var key, rest := q[0].key, q[1..];
    var c, xs, ys := Child(e, q[0].name), ListAt(p, q[0].name), d.fields[q[0].name].items;
    hide ValidObj, In, PartOrNil, Preceded, InOrder, Holds, Part, PartList, ListInOrder, ValidEntries, IsLeaf, ListAt;
    var j :| EntryKey(c, ys, key, j) && In(c, ys[j], rest, v);
    EntryReady(e, p, d, q, seen, j);
    var i := FindEntry(xs, key);
    EntryWritten(c, xs, ys, i, if i < |xs| then xs[i] else Obj(KeyLeaves(key)), rest, v, Under(seen, q[0]));
  }

  /** Writing the entry at the index it has in the document keeps the list in order. */
  lemma EntryWritten(c: Entry, xs: seq<Json>, ys: seq<Json>, i: nat, old_: Json, rest: seq<PathElem>, v: Json,
                     seen: set<Leaf>)
    requires ListInOrder(c, xs, ys) && i <= |xs| && i < |ys| && rest != []
    requires ValidObj(c, ys[i]) && In(c, ys[i], rest, v) && Part(c, old_, ys[i]) && InOrder(c, old_, ys[i])
    requires HasKeys(c.keys, old_) && KeyOf(c.keys, old_) == KeyOf(c.keys, ys[i])
    requires HasKeys(c.keys, ys[i]) && Preceded(c, ys[i], seen, rest) && Holds(c, old_, seen)
    ensures AddData(old_, rest, v).Ok?
    ensures var x' := AddData(old_, rest, v).value;
            ListInOrder(c, if i < |xs| then xs[i := x'] else xs + [x'], ys)
    decreases |rest|, 3
  {
    hide In, Preceded, InOrder, Holds, ListInOrder, ValidObj, Part, HasKeys, KeyOf;
    AddKeepsOrder(c, old_, ys[i], rest, v, seen);
    AddKeepsPart(c, old_, ys[i], rest, v);
    PartKeepsKey(c, old_, AddData(old_, rest, v).value, ys[i], rest, v);
    ListStaysInOrder(c, xs, ys, i, AddData(old_, rest, v).value);
  }

  lemma ListStaysInOrder(c: Entry, xs: seq<Json>, ys: seq<Json>, i: nat, x': Json)
    requires ListInOrder(c, xs, ys) && i <= |xs| && i < |ys|
    requires KeyOf(c.keys, x') == KeyOf(c.keys, ys[i]) && InOrder(c, x', ys[i])
    ensures ListInOrder(c, if i < |xs| then xs[i := x'] else xs + [x'], ys)
  {
  }

  /** The entry to be written: in the list at the index it has in the document, or new and next. */
  lemma EntryReady(e: Entry, p: Json, d: Json, q: seq<PathElem>, seen: set<Leaf>, j: int)
    requires |q| > 1 && d.Obj? && q[0].name in d.fields && d.fields[q[0].name].Arr? && q[0].key != map[]
    requires var c, xs, ys := Child(e, q[0].name), ListAt(p, q[0].name), d.fields[q[0].name].items;
             && ValidEntries(c, ys) && ListInOrder(c, xs, ys) && PartList(c, xs, ys)
             && EntryKey(c, ys, q[0].key, j)
    requires Preceded(e, d, seen, q) && Holds(e, p, seen)
    ensures var c, xs, ys := Child(e, q[0].name), ListAt(p, q[0].name), d.fields[q[0].name].items;
            var i := FindEntry(xs, q[0].key);
            var old_ := if i < |xs| then xs[i] else Obj(KeyLeaves(q[0].key));
            && i == j <= |xs|
            && ValidObj(c, ys[j]) && Part(c, old_, ys[j]) && InOrder(c, old_, ys[j])
            && HasKeys(c.keys, old_) && KeyOf(c.keys, old_) == q[0].key
            && Preceded(c, ys[j], Under(seen, q[0]), q[1..]) && Holds(c, old_, Under(seen, q[0]))
  {
    var k, key := q[0].name, q[0].key;
    var c, xs, ys := Child(e, k), ListAt(p, k), d.fields[k].items;
    KeyDomain(c, ys[j]);
    assert PrecededInList(c, ys, seen, q);
    var i := FindEntry(xs, key);
    FindEntryMeaning(xs, key);
    hide Preceded, In, PartList, ListInOrder;
    if i < |xs| {
      EntryAtItsIndex(c, xs, ys, key, i, j);
      EntriesSeen(e, p, k, key, i, xs, seen, c, ys);
      EntryOrder(c, xs, ys, i);
    } else {
      NoEntryWithKey(c, xs, ys, key);
      NextInTurn(e, p, k, key, j, xs, seen, c, ys);
      NothingSeen(e, p, k, key, xs, seen, c);
      NewEntryIsPart(c, ys, key, j);
      KeysInOrder(c, key, ys[j]);
    }
  }

  lemma EntryOrder(c: Entry, xs: seq<Json>, ys: seq<Json>, i: nat)
    requires ListInOrder(c, xs, ys) && i < |xs|
    ensures InOrder(c, xs[i], ys[i])
  {
  }

  lemma KeysInOrder(c: Entry, key: map<string, string>, y: Json)
    ensures InOrder(c, Obj(KeyLeaves(key)), y)
  {
  }

  lemma EntryAtItsIndex(c: Entry, xs: seq<Json>, ys: seq<Json>, key: map<string, string>, i: nat, j: int)
    requires ValidEntries(c, ys) && PartList(c, xs, ys) && ListInOrder(c, xs, ys)
    requires EntryKey(c, ys, key, j) && i < |xs| && Matches(xs[i], key)
    ensures i == j && HasKeys(c.keys, xs[i]) && KeyOf(c.keys, xs[i]) == key && Part(c, xs[i], ys[j])
  {
    KeyDomain(c, ys[j]);
    assert PartOfSome(c, xs[i], ys);
    var j' :| PartEntry(c, xs[i], ys, j');
    MatchIsKey(c, xs[i], key);
    SameEntry(c, ys, key, i, j);
    SameEntry(c, ys, key, j', j);
  }

  /** What has been seen below an entry is in it. */
  lemma EntriesSeen(e: Entry, p: Json, k: string, key: map<string, string>, i: nat,
      xs: seq<Json>, seen: set<Leaf>, c: Entry, ys: seq<Json>)
    requires Holds(e, p, seen) && c == Child(e, k) && i < |xs| && key != map[]
    requires xs == (var m := Fields(p).GetOr(map[]); if k in m && m[k].Arr? then m[k].items else [])
    requires PartList(c, xs, ys) && HasKeys(c.keys, xs[i]) && KeyOf(c.keys, xs[i]) == key
    ensures Holds(c, xs[i], Under(seen, PathElem(k, key)))
  {
    forall u | u in Under(seen, PathElem(k, key)) ensures In(c, xs[i], u.0, u.1) {
      var w :| w in seen && w.0 != [] && w.0[0] == PathElem(k, key) && u == (w.0[1..], w.1);
      assert In(e, p, w.0, w.1);
      var i' :| EntryKey(c, xs, key, i') && In(c, xs[i'], w.0[1..], w.1);
      SameEntry(c, xs, key, i, i');
    }
  }

  /** Nothing has been seen below an entry that is not there. */
  lemma NothingSeen(e: Entry, p: Json, k: string, key: map<string, string>, xs: seq<Json>, seen: set<Leaf>, c: Entry)
    requires Holds(e, p, seen) && c == Child(e, k) && key != map[]
    requires xs == (var m := Fields(p).GetOr(map[]); if k in m && m[k].Arr? then m[k].items else [])
    requires forall n | 0 <= n < |xs| :: KeyOf(c.keys, xs[n]) != key
    ensures !Touches(seen, PathElem(k, key))
    ensures Under(seen, PathElem(k, key)) == {}
  {
    forall w | w in seen ensures !(w.0 != [] && w.0[0] == PathElem(k, key)) {
      assert In(e, p, w.0, w.1);
    }
  }

  /** A new entry comes right after the last one. */
  lemma NextInTurn(e: Entry, p: Json, k: string, key: map<string, string>, j: int,
      xs: seq<Json>, seen: set<Leaf>, c: Entry, ys: seq<Json>)
    requires Holds(e, p, seen) && c == Child(e, k) && key != map[]
    requires xs == (var m := Fields(p).GetOr(map[]); if k in m && m[k].Arr? then m[k].items else [])
    requires ValidEntries(c, ys) && EntryKey(c, ys, key, j) && ListInOrder(c, xs, ys) && c.keys != []
    requires forall n | 0 <= n < |xs| :: KeyOf(c.keys, xs[n]) != key
    requires j > 0 ==> Touches(seen, PathElem(k, KeyOf(c.keys, ys[j - 1])))
    ensures |xs| == j
  {
    assert forall n | 0 <= n < |xs| :: KeyOf(c.keys, xs[n]) != key && n != j;
    if j > 0 {
      var before := KeyOf(c.keys, ys[j - 1]);
      assert c.keys[0] in before;
      if forall n | 0 <= n < |xs| :: KeyOf(c.keys, xs[n]) != before {
        NothingSeen(e, p, k, before, xs, seen, c);
      } else {
        var n :| 0 <= n < |xs| && KeyOf(c.keys, xs[n]) == before;
        SameEntry(c, ys, before, n, j - 1);
      }
    }
  }

  // ---------------------------------------------------------------- exactness

  /** A part that has every leaf and keeps the order is the document. */
  lemma {:induction false} ExactPart(e: Entry, p: Json, d: Json)
    requires ValidObj(e, d) && Part(e, p, d) && Keeps(e, d, p) && InOrder(e, p, d)
    ensures p == d
    decreases d, 1
  {
    forall k | k in d.fields ensures k in p.fields && p.fields[k] == d.fields[k] {
      var q, v := SomeLeafOf(e, d, k);
      assert In(e, p, q, v);
      ExactField(e, p, d, k);
    }
    assert p.fields == d.fields;
  }

  lemma {:induction false} ExactField(e: Entry, p: Json, d: Json, k: string)
    requires ValidObj(e, d) && Part(e, p, d) && Keeps(e, d, p) && InOrder(e, p, d) && k in d.fields && k in p.fields
    ensures p.fields[k] == d.fields[k]
    decreases d, 0
  {
    var c, x, y := Child(e, k), p.fields[k], d.fields[k];
    assert ValidField(c, y) && FieldInOrder(c, x, y);
    PartAt(e, p, d, k);
    if y.Obj? {
      ContainerStillThere(e, p, d, k);
      ExactPart(c, x, y);
    } else if !IsLeaf(y) {
      ListStillThere(e, p, d, k);
      WholeList(c, x.items, y.items);
      forall i | 0 <= i < |y.items| ensures x.items[i] == y.items[i] {
        ExactEntry(c, x.items, y.items, i);
        ExactPart(c, x.items[i], y.items[i]);
      }
      assert x.items == y.items;
    }
  }

  lemma ExactEntry(c: Entry, xs: seq<Json>, ys: seq<Json>, i: nat)
    requires ValidEntries(c, ys) && PartList(c, xs, ys) && ListInOrder(c, xs, ys) && KeepsList(c, ys, xs)
    requires i < |xs| == |ys|
    ensures Part(c, xs[i], ys[i]) && Keeps(c, ys[i], xs[i]) && InOrder(c, xs[i], ys[i])
  {
    assert PartOfSome(c, xs[i], ys);
    var j :| PartEntry(c, xs[i], ys, j);
    SameEntry(c, ys, KeyOf(c.keys, xs[i]), i, j);
    EntryStillThere(c, xs, ys, i, i);
  }

  lemma OrderedBefore(e: Entry, d: Json, before: seq<Leaf>, last: Leaf)
    requires Ordered(e, d, before + [last])
    ensures Ordered(e, d, before) && Preceded(e, d, Elems(before), last.0)
  {
    var us := before + [last];
    forall n | 0 <= n < |before| ensures Preceded(e, d, Elems(before[..n]), before[n].0) {
      assert before[..n] == us[..n] && before[n] == us[n];
    }
    assert us[..|before|] == before;
  }

  lemma {:induction false} FoldKeepsOrder(e: Entry, d: Json, us: seq<Leaf>)
    requires ValidObj(e, d) && (forall u | u in us :: In(e, d, u.0, u.1)) && Ordered(e, d, us)
    ensures Fold(us).Ok? && InOrder(e, Fold(us).value, d)
    decreases |us|
  {
    if us != [] {
      var before, last := us[..|us| - 1], us[|us| - 1];
      assert us == before + [last] && last in us;
      assert forall u | u in before :: u in us;
      OrderedBefore(e, d, before, last);
      FoldKeepsOrder(e, d, before);
      FoldKeepsPart(e, d, before);
      hide Ordered, Preceded, ValidObj, In, InOrder, Part;
      AddKeepsOrder(e, Fold(before).value, d, last.0, last.1, Elems(before));
    }
  }

  /** Rebuilding a schema-valid document from its leaf updates in the order of their emission gives
      exactly the document. */
  lemma RebuildsExactly(e: Entry, d: Json, us: seq<Leaf>)
    requires ValidObj(e, d) && LeavesOf(e, d, us) && Ordered(e, d, us)
    ensures Fold(us) == Ok(d)
  {
    forall u | u in us ensures In(e, d, u.0, u.1) {
      assert u == (u.0, u.1);
    }
    FoldKeepsPart(e, d, us);
    FoldKeepsOrder(e, d, us);
    forall q, v | In(e, d, q, v) ensures In(e, Fold(us).value, q, v) {
      assert (q, v) in us;
    }
    var k :| k in d.fields;
    var q, v := SomeLeafOf(e, d, k);
    assert In(e, Fold(us).value, q, v);
    ExactPart(e, Fold(us).value, d);
  }
}
