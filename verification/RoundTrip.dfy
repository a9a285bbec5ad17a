/** Rebuilding a document from its leaf updates, in any order and with any repetitions, gives the
    document back up to the order of list entries. */
module RoundTrip {
  import opened Gnmi
  import opened Documents
  import opened Rebuild

  /** `p` is a part of the document `d`: fewer fields and fewer list entries, in any order, but
      whole leaves and whole keys. */
  ghost predicate Part(e: Entry, p: Json, d: Json)
    decreases p, 0
  {
    && p.Obj? && d.Obj? && p.fields.Keys <= d.fields.Keys
    && forall k | k in p.fields :: PartField(Child(e, k), p.fields[k], d.fields[k])
  }

  ghost predicate PartField(c: Entry, x: Json, y: Json)
    decreases x, 1
  {
    if IsLeaf(y) then x == y
    else if y.Obj? then Part(c, x, y)
    else x.Arr? && y.Arr? && PartList(c, x.items, y.items)
  }

  ghost predicate PartList(c: Entry, xs: seq<Json>, ys: seq<Json>)
    decreases xs
  {
    && DistinctKeys(c.keys, xs)
    && forall i | 0 <= i < |xs| :: PartOfSome(c, xs[i], ys)
  }

  /** The entry is a part of an entry of `ys`. */
  ghost predicate PartOfSome(c: Entry, x: Json, ys: seq<Json>)
    decreases x, 2
  {
    exists j :: PartEntry(c, x, ys, j)
  }

  /** The entry is a part of the entry of `ys` at index `j`, under the same key. */
  ghost predicate PartEntry(c: Entry, x: Json, ys: seq<Json>, j: int)
    decreases x, 1
  {
    && HasKeys(c.keys, x) && EntryKey(c, ys, KeyOf(c.keys, x), j) && Part(c, x, ys[j])
  }

  /** Nothing yet, or a part. */
  ghost predicate PartOrNil(e: Entry, p: Json, d: Json) {
    p.Null? || Part(e, p, d)
  }

  ghost predicate Keeps(e: Entry, p: Json, p': Json) {
    forall q, v :: In(e, p, q, v) ==> In(e, p', q, v)
  }

  /** A part of an entry matches exactly the key it has. */
  lemma MatchIsKey(c: Entry, x: Json, key: map<string, string>)
    requires HasKeys(c.keys, x) && forall k :: k in key <==> k in c.keys
    ensures Matches(x, key) <==> KeyOf(c.keys, x) == key
  {
    if Matches(x, key) {
      forall k | k in key ensures KeyOf(c.keys, x)[k] == key[k] {}
      assert KeyOf(c.keys, x).Keys == key.Keys;
    }
    if KeyOf(c.keys, x) == key {
      forall k | k in key ensures x.fields[k] == Str(key[k]) {
        assert KeyOf(c.keys, x)[k] == x.fields[k].s;
      }
    }
  }

  lemma KeyDomain(c: Entry, x: Json)
    requires HasKeys(c.keys, x)
    ensures forall k :: k in KeyOf(c.keys, x) <==> k in c.keys
  {
  }

  /** Writing one leaf of `d` into a part of `d`: it succeeds, the result is a part that has the
      leaf and keeps what was there. */
  lemma {:induction false} AddKeepsPart(e: Entry, p: Json, d: Json, q: seq<PathElem>, v: Json)
    requires ValidObj(e, d) && In(e, d, q, v) && PartOrNil(e, p, d)
    ensures AddData(p, q, v).Ok?
    ensures Part(e, AddData(p, q, v).value, d)
    ensures In(e, AddData(p, q, v).value, q, v)
    ensures Keeps(e, p, AddData(p, q, v).value)
    decreases |q|, 2
  {
    hide IsLeaf, HasKeys, DistinctKeys, Part, Keeps;
    if q[0].key != map[] {
      AddKeyedKeepsPart(e, p, d, q, v);
    } else if |q| == 1 {
      hide In;
      LeafAdded(e, p, d, q, v);
    } else {
      AddBelowKeepsPart(e, p, d, q, v);
    }
  }

  /** Adding below a container. */
  lemma {:induction false} AddBelowKeepsPart(e: Entry, p: Json, d: Json, q: seq<PathElem>, v: Json)
    requires ValidObj(e, d) && In(e, d, q, v) && PartOrNil(e, p, d) && q[0].key == map[] && |q| > 1
    ensures AddData(p, q, v).Ok?
    ensures Part(e, AddData(p, q, v).value, d)
    ensures In(e, AddData(p, q, v).value, q, v)
    ensures Keeps(e, p, AddData(p, q, v).value)
    decreases |q|, 1
  {
    var k, rest := q[0].name, q[1..];
    var m := Fields(p).value;
    var c, y := Child(e, k), d.fields[k];
    assert ValidField(c, y);
    hide IsLeaf, HasKeys, DistinctKeys;
    if k in m { PartAt(e, p, d, k); }
    AddKeepsPart(c, if k in m then m[k] else Null, y, rest, v);
    FieldAdded(e, p, d, q, v, AddData(if k in m then m[k] else Null, rest, v).value);
  }

  /** The list to write into. */
  function ListAt(p: Json, k: string): seq<Json> {
    var m := Fields(p).GetOr(map[]);
    if k in m && m[k].Arr? then m[k].items else []
  }

  /** A keyed leaf lies in an entry of a list on both sides. */
  lemma KeyedReady(e: Entry, p: Json, d: Json, q: seq<PathElem>, v: Json)
    requires ValidObj(e, d) && In(e, d, q, v) && PartOrNil(e, p, d) && q[0].key != map[]
    ensures |q| > 1 && d.Obj? && q[0].name in d.fields && d.fields[q[0].name].Arr? && !IsLeaf(d.fields[q[0].name])
    ensures Fields(p).Some? && (q[0].name in Fields(p).value ==> Fields(p).value[q[0].name].Arr?)
    ensures var c, ys := Child(e, q[0].name), d.fields[q[0].name].items;
            && ValidEntries(c, ys) && PartList(c, ListAt(p, q[0].name), ys)
            && exists j :: EntryKey(c, ys, q[0].key, j) && In(c, ys[j], q[1..], v)
  {
    hide IsLeaf, HasKeys;
    var k := q[0].name;
    var c, y := Child(e, k), d.fields[k];
    assert ValidField(c, y);
    if k in Fields(p).GetOr(map[]) { PartAt(e, p, d, k); }
    if |q| == 1 { NoLeafAtKey(c, y, q, v); }
    InField(e, d, q, v);
  }

  /** Adding below a list entry. */
  lemma {:induction false} AddKeyedKeepsPart(e: Entry, p: Json, d: Json, q: seq<PathElem>, v: Json)
    requires ValidObj(e, d) && In(e, d, q, v) && PartOrNil(e, p, d) && q[0].key != map[]
    ensures AddData(p, q, v).Ok?
    ensures Part(e, AddData(p, q, v).value, d)
    ensures In(e, AddData(p, q, v).value, q, v)
    ensures Keeps(e, p, AddData(p, q, v).value)
    decreases |q|, 1
  {
    KeyedReady(e, p, d, q, v);
    hide In, ValidObj, ValidEntries, Part, PartList, PartOrNil, IsLeaf, EntryKey, AddEntry, Keeps;
    var k := q[0].name;
    var xs := ListAt(p, k);
    AddEntryKeepsPart(Child(e, k), xs, d.fields[k].items, q[0].key, q[1..], v);
    var l := AddEntry(xs, q[0].key, q[1..], v).value;
    ListAdded(e, p, d, q, v, l);
    assert AddData(p, q, v) == Ok(Obj(Fields(p).value[k := Arr(l)]));
  }

  /** What a part has in a field. */
  lemma PartAt(e: Entry, p: Json, d: Json, k: string)
    requires PartOrNil(e, p, d) && k in Fields(p).GetOr(map[])
    ensures p.Obj? && d.Obj? && k in p.fields && k in d.fields
    ensures var c, x, y := Child(e, k), p.fields[k], d.fields[k];
            && (IsLeaf(y) ==> x == y)
            && (y.Obj? ==> Part(c, x, y) && x.Obj?)
            && (!IsLeaf(y) && !y.Obj? ==> x.Arr? && y.Arr? && PartList(c, x.items, y.items) && !IsLeaf(x))
  {
    var c, x, y := Child(e, k), p.fields[k], d.fields[k];
    assert PartField(c, x, y);
    if !IsLeaf(y) && !y.Obj? {
      PartListHoldsObjects(c, x.items, y.items);
    }
  }

  lemma PartListHoldsObjects(c: Entry, xs: seq<Json>, ys: seq<Json>)
    requires PartList(c, xs, ys)
    ensures !IsLeaf(Arr(xs))
  {
    if xs != [] {
      assert PartOfSome(c, xs[0], ys);
      var j :| PartEntry(c, xs[0], ys, j);
    }
  }

  lemma NoLeafAtKey(c: Entry, y: Json, q: seq<PathElem>, v: Json)
    requires y.Arr? && q != [] && exists i :: EntryKey(c, y.items, q[0].key, i) && In(c, y.items[i], q[1..], v)
    ensures q[1..] != []
  {
  }

  /** The last step: a leaf is stored. */
  lemma LeafAdded(e: Entry, p: Json, d: Json, q: seq<PathElem>, v: Json)
    requires ValidObj(e, d) && In(e, d, q, v) && PartOrNil(e, p, d) && |q| == 1 && q[0].key == map[]
    ensures AddData(p, q, v).Ok?
    ensures Part(e, AddData(p, q, v).value, d)
    ensures In(e, AddData(p, q, v).value, q, v)
    ensures Keeps(e, p, AddData(p, q, v).value)
  {
    var p' := AddData(p, q, v).value;
    forall q': seq<PathElem>, v': Json | In(e, p, q', v') ensures In(e, p', q', v') {
      if q'[0].name == q[0].name { SameLeaf(e, p, d, q', v', q[0].name); }
    }
  }

  /** What a part has at a leaf of the document is that leaf. */
  lemma SameLeaf(e: Entry, p: Json, d: Json, q: seq<PathElem>, v: Json, k: string)
    requires Part(e, p, d) && In(e, p, q, v) && q[0].name == k && IsLeaf(d.fields[k])
    ensures p.fields[k] == d.fields[k]
    ensures |q| == 1 && q[0].key == map[] && v == d.fields[k]
  {
    PartAt(e, p, d, k);
  }

  /** A field that is a container was written below. */
  lemma FieldAdded(e: Entry, p: Json, d: Json, q: seq<PathElem>, v: Json, x': Json)
    requires Fields(p).Some? && PartOrNil(e, p, d) && d.Obj? && |q| > 1 && q[0].key == map[] && q[0].name in d.fields
    requires d.fields[q[0].name].Obj? && Part(Child(e, q[0].name), x', d.fields[q[0].name])
    requires In(Child(e, q[0].name), x', q[1..], v)
    requires var m := Fields(p).value;
             q[0].name in m ==> Keeps(Child(e, q[0].name), m[q[0].name], x')
    ensures var p' := Obj(Fields(p).value[q[0].name := x']);
            Part(e, p', d) && In(e, p', q, v) && Keeps(e, p, p')
  {
    var k := q[0].name;
    var p' := Obj(Fields(p).value[k := x']);
    forall q': seq<PathElem>, v': Json | In(e, p, q', v') ensures In(e, p', q', v') {
      if q'[0].name == k { PartAt(e, p, d, k); }
    }
  }

  /** A field that is a list was written in one of its entries. */
  lemma ListAdded(e: Entry, p: Json, d: Json, q: seq<PathElem>, v: Json, l: seq<Json>)
    requires Fields(p).Some? && PartOrNil(e, p, d) && d.Obj? && |q| > 1 && q[0].key != map[] && q[0].name in d.fields
    requires d.fields[q[0].name].Arr? && !IsLeaf(d.fields[q[0].name])
    requires PartList(Child(e, q[0].name), l, d.fields[q[0].name].items)
    requires exists i :: EntryKey(Child(e, q[0].name), l, q[0].key, i) && In(Child(e, q[0].name), l[i], q[1..], v)
    requires var m := Fields(p).value;
             q[0].name in m ==> m[q[0].name].Arr? && KeepsList(Child(e, q[0].name), m[q[0].name].items, l)
    ensures var p' := Obj(Fields(p).value[q[0].name := Arr(l)]);
            Part(e, p', d) && In(e, p', q, v) && Keeps(e, p, p')
  {
    var k := q[0].name;
    var c := Child(e, k);
    var p' := Obj(Fields(p).value[k := Arr(l)]);
    assert PartField(c, Arr(l), d.fields[k]);
    forall q': seq<PathElem>, v': Json | In(e, p, q', v') ensures In(e, p', q', v') {
      if q'[0].name == k {
        PartAt(e, p, d, k);
        StillInList(e, p, q', v', l);
      }
    }
  }

  lemma StillInList(e: Entry, p: Json, q: seq<PathElem>, v: Json, l: seq<Json>)
    requires In(e, p, q, v) && p.fields[q[0].name].Arr? && !IsLeaf(p.fields[q[0].name])
    requires KeepsList(Child(e, q[0].name), p.fields[q[0].name].items, l)
    ensures In(e, Obj(p.fields[q[0].name := Arr(l)]), q, v)
  {
    var c, xs := Child(e, q[0].name), p.fields[q[0].name].items;
    var i :| EntryKey(c, xs, q[0].key, i) && In(c, xs[i], q[1..], v);
    var i' :| EntryKey(c, l, q[0].key, i') && In(c, l[i'], q[1..], v);
  }

  /** Whatever an entry of the list has is still there, under the same key. */
  ghost predicate KeepsList(c: Entry, xs: seq<Json>, xs': seq<Json>) {
    forall i, q, v | 0 <= i < |xs| && In(c, xs[i], q, v) && HasKeys(c.keys, xs[i]) ::
      exists i' :: EntryKey(c, xs', KeyOf(c.keys, xs[i]), i') && In(c, xs'[i'], q, v)
  }

  /** Writing one leaf of one entry into a part of a list. */
  lemma {:induction false} AddEntryKeepsPart(c: Entry, xs: seq<Json>, ys: seq<Json>, key: map<string, string>,
      rest: seq<PathElem>, v: Json)
    requires ValidEntries(c, ys) && PartList(c, xs, ys) && rest != []
    requires exists j :: EntryKey(c, ys, key, j) && In(c, ys[j], rest, v)
    ensures AddEntry(xs, key, rest, v).Ok?
    ensures var l := AddEntry(xs, key, rest, v).value;
            && PartList(c, l, ys) && KeepsList(c, xs, l)
            && exists i :: EntryKey(c, l, key, i) && In(c, l[i], rest, v)
    decreases |rest|, 3
  {
    var j :| EntryKey(c, ys, key, j) && In(c, ys[j], rest, v);
    KeyDomain(c, ys[j]);
    var i := FindEntry(xs, key);
    FindEntryMeaning(xs, key);
    var old_ := if i < |xs| then xs[i] else Obj(KeyLeaves(key));
    if i < |xs| {
      assert PartOfSome(c, xs[i], ys);
      var j' :| PartEntry(c, xs[i], ys, j');
      MatchIsKey(c, xs[i], key);
      assert j' == j by { SameEntry(c, ys, key, j', j); }
    } else {
      NewEntryIsPart(c, ys, key, j);
      NoEntryWithKey(c, xs, ys, key);
    }
    AddKeepsPart(c, old_, ys[j], rest, v);
    var x' := AddData(old_, rest, v).value;
    PartKeepsKey(c, old_, x', ys[j], rest, v);
    EntryReplaced(c, xs, ys, key, i, x', j, rest, v);
  }

  lemma {:induction false} FindEntryMeaning(items: seq<Json>, key: map<string, string>)
    ensures FindEntry(items, key) <= |items|
    ensures forall j | 0 <= j < FindEntry(items, key) :: !Matches(items[j], key)
    ensures FindEntry(items, key) < |items| ==> Matches(items[FindEntry(items, key)], key)
  {
    if items != [] && !Matches(items[0], key) { FindEntryMeaning(items[1..], key); }
  }

  /** Where no entry matches, no entry has the key. */
  lemma NoEntryWithKey(c: Entry, xs: seq<Json>, ys: seq<Json>, key: map<string, string>)
    requires PartList(c, xs, ys) && forall k :: k in key <==> k in c.keys
    requires forall n | 0 <= n < |xs| :: !Matches(xs[n], key)
    ensures forall n | 0 <= n < |xs| :: KeyOf(c.keys, xs[n]) != key
  {
    forall n | 0 <= n < |xs| ensures KeyOf(c.keys, xs[n]) != key {
      assert PartOfSome(c, xs[n], ys);
      var j :| PartEntry(c, xs[n], ys, j);
      MatchIsKey(c, xs[n], key);
    }
  }

  lemma SameEntry(c: Entry, ys: seq<Json>, key: map<string, string>, i: int, j: int)
    requires DistinctKeys(c.keys, ys) && EntryKey(c, ys, key, i) && EntryKey(c, ys, key, j)
    ensures i == j
  {
  }

  /** A new entry with its key leaves alone is a part of the document's entry. */
  lemma NewEntryIsPart(c: Entry, ys: seq<Json>, key: map<string, string>, j: int)
    requires EntryKey(c, ys, key, j)
    ensures Part(c, Obj(KeyLeaves(key)), ys[j])
    ensures HasKeys(c.keys, Obj(KeyLeaves(key))) && KeyOf(c.keys, Obj(KeyLeaves(key))) == key
  {
    KeyDomain(c, ys[j]);
    forall k | k in key ensures k in ys[j].fields && ys[j].fields[k] == Str(key[k]) {}
  }

  /** Writing into an entry does not change its key. */
  lemma PartKeepsKey(c: Entry, x: Json, x': Json, y: Json, rest: seq<PathElem>, v: Json)
    requires HasKeys(c.keys, x) && HasKeys(c.keys, y) && KeyOf(c.keys, x) == KeyOf(c.keys, y)
    requires rest != [] && AddData(x, rest, v) == Ok(x') && Part(c, x', y)
    ensures HasKeys(c.keys, x') && KeyOf(c.keys, x') == KeyOf(c.keys, y)
  {
    forall k | k in c.keys ensures k in x'.fields && x'.fields[k] == y.fields[k] {
      assert PartField(Child(c, k), x'.fields[k], y.fields[k]);
    }
  }

  /** The list after the write. */
  lemma EntryReplaced(c: Entry, xs: seq<Json>, ys: seq<Json>, key: map<string, string>, i: nat, x': Json, j: int,
                      rest: seq<PathElem>, v: Json)
    requires PartList(c, xs, ys) && i <= |xs| && EntryKey(c, ys, key, j)
    requires HasKeys(c.keys, x') && KeyOf(c.keys, x') == key && Part(c, x', ys[j]) && In(c, x', rest, v)
    requires i < |xs| ==> KeyOf(c.keys, xs[i]) == key && Keeps(c, xs[i], x')
    requires i == |xs| ==> forall n | 0 <= n < |xs| :: KeyOf(c.keys, xs[n]) != key
    ensures var l := if i < |xs| then xs[i := x'] else xs + [x'];
            && PartList(c, l, ys) && KeepsList(c, xs, l)
            && exists n :: EntryKey(c, l, key, n) && In(c, l[n], rest, v)
  {
    var l := if i < |xs| then xs[i := x'] else xs + [x'];
    assert EntryKey(c, l, key, i) && In(c, l[i], rest, v);
    hide In, Part, HasKeys, KeyOf, DistinctKeys, PartList;
    PartListGrows(c, xs, ys, i, x', j);
    ListKeeps(c, xs, i, x');
  }

  lemma PartListGrows(c: Entry, xs: seq<Json>, ys: seq<Json>, i: nat, x': Json, j: int)
    requires PartList(c, xs, ys) && i <= |xs| && PartEntry(c, x', ys, j)
    requires i < |xs| ==> KeyOf(c.keys, xs[i]) == KeyOf(c.keys, x')
    requires i == |xs| ==> forall n | 0 <= n < |xs| :: KeyOf(c.keys, xs[n]) != KeyOf(c.keys, x')
    ensures PartList(c, if i < |xs| then xs[i := x'] else xs + [x'], ys)
  {
    var l := if i < |xs| then xs[i := x'] else xs + [x'];
    hide EntryKey, HasKeys;
    KeysStayDistinct(c.keys, xs, i, x');
    assert PartOfSome(c, x', ys);
    forall n | 0 <= n < |l| ensures PartOfSome(c, l[n], ys) {
      if n != i { assert l[n] == xs[n]; }
    }
  }

  lemma ListKeeps(c: Entry, xs: seq<Json>, i: nat, x': Json)
    requires i <= |xs| && HasKeys(c.keys, x')
    requires i < |xs| ==> KeyOf(c.keys, xs[i]) == KeyOf(c.keys, x') && Keeps(c, xs[i], x')
    ensures KeepsList(c, xs, if i < |xs| then xs[i := x'] else xs + [x'])
  {
    var l := if i < |xs| then xs[i := x'] else xs + [x'];
    hide In;
    forall n, q: seq<PathElem>, u: Json | 0 <= n < |xs| && In(c, xs[n], q, u) && HasKeys(c.keys, xs[n])
      ensures exists i' :: EntryKey(c, l, KeyOf(c.keys, xs[n]), i') && In(c, l[i'], q, u)
    {
      assert EntryKey(c, l, KeyOf(c.keys, xs[n]), n) && In(c, l[n], q, u);
    }
  }

  lemma KeysStayDistinct(keys: seq<string>, xs: seq<Json>, i: nat, x': Json)
    requires DistinctKeys(keys, xs) && i <= |xs|
    requires i < |xs| ==> KeyOf(keys, xs[i]) == KeyOf(keys, x')
    requires i == |xs| ==> forall n | 0 <= n < |xs| :: KeyOf(keys, xs[n]) != KeyOf(keys, x')
    ensures DistinctKeys(keys, if i < |xs| then xs[i := x'] else xs + [x'])
  {
  }

  // ---------------------------------------------------------------- a whole part

  /** A part that has every leaf of the document is the document, up to the order of lists. */
  lemma {:induction false} WholePart(e: Entry, p: Json, d: Json)
    requires ValidObj(e, d) && Part(e, p, d)
    requires Keeps(e, d, p)
    ensures SameDoc(p, d)
    decreases d, 1
  {
    forall k | k in d.fields ensures k in p.fields && SameDoc(p.fields[k], d.fields[k]) {
      assert ValidField(Child(e, k), d.fields[k]);
      var q, v := SomeLeafOf(e, d, k);
      assert In(e, p, q, v);
      PartAt(e, p, d, k);
      WholeField(e, p, d, k);
    }
  }

  lemma WholeField(e: Entry, p: Json, d: Json, k: string)
    requires ValidObj(e, d) && Part(e, p, d) && Keeps(e, d, p) && k in d.fields && k in p.fields
    ensures SameDoc(p.fields[k], d.fields[k])
    decreases d, 0
  {
    var c, x, y := Child(e, k), p.fields[k], d.fields[k];
    assert ValidField(c, y);
    PartAt(e, p, d, k);
    if IsLeaf(y) {
      SameDocRefl(y);
    } else if y.Obj? {
      ContainerStillThere(e, p, d, k);
      WholePart(c, x, y);
    } else {
      ListStillThere(e, p, d, k);
      WholeList(c, x.items, y.items);
    }
  }

  lemma ContainerStillThere(e: Entry, p: Json, d: Json, k: string)
    requires p.Obj? && d.Obj? && k in p.fields && k in d.fields && d.fields[k].Obj? && Keeps(e, d, p)
    ensures Keeps(Child(e, k), d.fields[k], p.fields[k])
  {
    forall q: seq<PathElem>, v: Json | In(Child(e, k), d.fields[k], q, v) ensures In(Child(e, k), p.fields[k], q, v) {
      var q' := [PathElem(k, map[])] + q;
      assert q'[1..] == q;
      assert In(e, d, q', v);
      assert In(e, p, q', v);
    }
  }

  lemma ListStillThere(e: Entry, p: Json, d: Json, k: string)
    requires p.Obj? && d.Obj? && k in p.fields && k in d.fields && p.fields[k].Arr? && d.fields[k].Arr?
    requires ValidEntries(Child(e, k), d.fields[k].items) && Child(e, k).keys != [] && Keeps(e, d, p)
    ensures KeepsList(Child(e, k), d.fields[k].items, p.fields[k].items)
  {
    var c, xs, ys := Child(e, k), p.fields[k].items, d.fields[k].items;
    forall j, q: seq<PathElem>, v: Json | 0 <= j < |ys| && In(c, ys[j], q, v) && HasKeys(c.keys, ys[j])
      ensures exists i :: EntryKey(c, xs, KeyOf(c.keys, ys[j]), i) && In(c, xs[i], q, v)
    {
      var key := KeyOf(c.keys, ys[j]);
      assert c.keys[0] in key;
      var q' := [PathElem(k, key)] + q;
      assert q'[1..] == q;
      assert EntryKey(c, ys, key, j) && In(c, ys[j], q'[1..], v);
      assert In(e, d, q', v);
      assert In(e, p, q', v);
    }
  }

  /** The index of the document's entry that an entry is a part of. */
  ghost function IndexIn(c: Entry, x: Json, ys: seq<Json>): (j: nat)
    requires exists j :: PartEntry(c, x, ys, j)
    ensures PartEntry(c, x, ys, j)
  {
    var j :| PartEntry(c, x, ys, j);
    j
  }

  /** A part of a list that has every leaf of every entry is a permutation of the list. */
  lemma {:induction false} WholeList(c: Entry, xs: seq<Json>, ys: seq<Json>)
    requires ValidEntries(c, ys) && PartList(c, xs, ys) && c.keys != []
    requires KeepsList(c, ys, xs)
    ensures |xs| == |ys|
    ensures exists f :: Permutation(f, |ys|) && SameEntries(xs, ys, f)
    decreases ys
  {
    var f := seq(|xs|, i requires 0 <= i < |xs| => assert PartOfSome(c, xs[i], ys); IndexIn(c, xs[i], ys));
    forall i | 0 <= i < |xs| ensures PartEntry(c, xs[i], ys, f[i]) {
      assert PartOfSome(c, xs[i], ys);
    }
    forall j | 0 <= j < |ys| ensures j in f {
      var q, v := SomeLeafOfEntry(c, ys, "", j);
      var key := KeyOf(c.keys, ys[j]);
      assert In(c, ys[j], q[1..], v);
      var i :| EntryKey(c, xs, key, i) && In(c, xs[i], q[1..], v);
      SameEntry(c, ys, key, f[i], j);
      assert f[i] == j;
    }
    Bijection(f, |ys|);
    forall i | 0 <= i < |xs| ensures SameDoc(xs[i], ys[f[i]]) {
      EntryStillThere(c, xs, ys, i, f[i]);
      WholePart(c, xs[i], ys[f[i]]);
    }
    assert SameEntries(xs, ys, f);
  }

  lemma EntryStillThere(c: Entry, xs: seq<Json>, ys: seq<Json>, i: nat, j: nat)
    requires KeepsList(c, ys, xs) && DistinctKeys(c.keys, xs) && i < |xs| && j < |ys|
    requires PartEntry(c, xs[i], ys, j)
    ensures Keeps(c, ys[j], xs[i])
  {
    forall q: seq<PathElem>, v: Json | In(c, ys[j], q, v) ensures In(c, xs[i], q, v) {
      var i' :| EntryKey(c, xs, KeyOf(c.keys, ys[j]), i') && In(c, xs[i'], q, v);
      SameEntry(c, xs, KeyOf(c.keys, ys[j]), i, i');
    }
  }

  lemma {:induction false} SameDocRefl(x: Json)
    ensures SameDoc(x, x)
    decreases x
  {
    if x.Obj? {
      forall k | k in x.fields ensures SameDoc(x.fields[k], x.fields[k]) { SameDocRefl(x.fields[k]); }
    } else if x.Arr? && !IsLeaf(x) {
      var f := seq(|x.items|, i requires 0 <= i < |x.items| => i);
      assert Permutation(f, |x.items|);
      forall i | 0 <= i < |x.items| ensures SameDoc(x.items[i], x.items[f[i]]) { SameDocRefl(x.items[i]); }
      assert SameEntries(x.items, x.items, f);
    }
  }

  // ---------------------------------------------------------------- main result

  lemma {:induction false} FoldKeepsPart(e: Entry, d: Json, us: seq<Leaf>)
    requires ValidObj(e, d) && forall u | u in us :: In(e, d, u.0, u.1)
    ensures Fold(us).Ok? && PartOrNil(e, Fold(us).value, d)
    ensures forall u | u in us :: In(e, Fold(us).value, u.0, u.1)
    decreases |us|
  {
    if us != [] {
      var before, last := us[..|us| - 1], us[|us| - 1];
      assert us == before + [last] && last in us;
      assert forall u | u in before :: u in us;
      FoldKeepsPart(e, d, before);
      AddKeepsPart(e, Fold(before).value, d, last.0, last.1);
      forall u | u in us ensures In(e, Fold(us).value, u.0, u.1) {
        assert u in before || u == last;
      }
    }
  }

  /** Round trip: rebuilding a schema-valid document from its leaf updates, taken in any order and
      with any repetitions, succeeds and gives the document up to the order of list entries. */
  lemma RebuildsDocument(e: Entry, d: Json, us: seq<Leaf>)
    requires ValidObj(e, d) && LeavesOf(e, d, us)
    ensures Fold(us).Ok? && SameDoc(Fold(us).value, d)
  {
    forall u | u in us ensures In(e, d, u.0, u.1) {
      assert u == (u.0, u.1);
    }
    FoldKeepsPart(e, d, us);
    var p := Fold(us).value;
    forall q, v | In(e, d, q, v) ensures In(e, p, q, v) {
      assert (q, v) in us;
    }
    var k :| k in d.fields;
    var q, v := SomeLeafOf(e, d, k);
    assert In(e, p, q, v);
    WholePart(e, p, d);
  }
}
