/** Exploding a document into its granular updates, one per leaf. */
module Explode {
  import opened Gnmi
  import opened Documents
  import opened EmissionOrder

  function LastKey(p: seq<PathElem>): map<string, string> {
    if p == [] then map[] else p[|p| - 1].key
  }

  /** The text of a key leaf: the string itself, or what the library prints for any other value. */
  function KeyText(sprint: Json -> string, m: map<string, Json>, k: string): string {
    var x := if k in m then m[k] else Null;
    if x.Str? then x.s else sprint(x)
  }

  /** The path element of a list entry. */
  function PathWithKeys(keys: seq<string>, name: string, m: map<string, Json>, sprint: Json -> string): PathElem {
    PathElem(name, map k | k in keys :: KeyText(sprint, m, k))
  }

  /** The document with the given key leaves. */
  function WithKey(x: Json, key: map<string, string>): Json {
    if x.Obj? then Obj(x.fields + KeyLeaves(key)) else x
  }

  /** The document with the key leaves of all its list entries as the texts that paths carry. */
  function Texted(e: Entry, x: Json, sprint: Json -> string): Json
    decreases x, 0
  {
    if x.Obj? then Obj(map k | k in x.fields :: TextedField(Child(e, k), x.fields[k], sprint)) else x
  }

  function TextedField(c: Entry, x: Json, sprint: Json -> string): Json
    decreases x, 1
  {
    match x
    case Obj(_) => Texted(c, x, sprint)
    case Arr(items) => if IsLeaf(x) then x else Arr(TextedEntries(c, items, sprint))
    case _ => x
  }

  function TextedEntries(c: Entry, items: seq<Json>, sprint: Json -> string): (r: seq<Json>)
    ensures |r| == |items|
    decreases items
  {
    seq(|items|, i requires 0 <= i < |items| => TextedEntry(c, items[i], sprint))
  }

  function TextedEntry(c: Entry, x: Json, sprint: Json -> string): Json
    decreases x, 1
  {
    if x.Obj? then WithKey(Texted(c, x, sprint), PathWithKeys(c.keys, "", x.fields, sprint).key) else x
  }

  /** The document as the explosion sees it under this key. */
  function Seen(e: Entry, key: map<string, string>, d: Json, sprint: Json -> string): Json {
    WithKey(Texted(e, d, sprint), key)
  }

  /** A document the explosion is meant for: valid, and with the key leaves its path carries. */
  ghost predicate Explodes(e: Entry, key: map<string, string>, d: Json) {
    ValidObj(e, d) && (key != map[] ==> HasKeys(e.keys, d) && KeyOf(e.keys, d) == key)
  }

  /** `us` are the leaves of the document in the fields `done`, in a possible order. */
  ghost predicate FieldLeaves(e: Entry, d: Json, done: set<string>, us: seq<Leaf>) {
    && (forall q: seq<PathElem>, v: Json :: (q, v) in us <==> In(e, d, q, v) && q[0].name in done)
    && Ordered(e, d, us)
  }

  /** The leaves of one field, in a possible order. */
  ghost predicate OneField(e: Entry, d: Json, k: string, us: seq<Leaf>) {
    && (forall q: seq<PathElem>, v: Json :: (q, v) in us <==> In(e, d, q, v) && q[0].name == k)
    && Ordered(e, d, us)
  }

  /** The leaves of the entries of a list below the index `n`, in a possible order. */
  ghost predicate EntryLeaves(c: Entry, items: seq<Json>, k: string, n: nat, us: seq<Leaf>) {
    && (forall q: seq<PathElem>, v: Json :: (q, v) in us <==>
          |q| > 1 && q[0].name == k &&
             exists i :: 0 <= i < n && EntryKey(c, items, q[0].key, i) && In(c, items[i], q[1..], v))
    && ListOrdered(c, items, us)
  }

  lemma PrefixOne(a: PathElem, us: seq<Leaf>)
    ensures forall q, v :: (q, v) in Prefix([a], us) <==> q != [] && q[0] == a && (q[1..], v) in us
  {
    forall q: seq<PathElem>, v: Json ensures (q, v) in Prefix([a], us) <==> q != [] && q[0] == a && (q[1..], v) in us {
      if (q, v) in Prefix([a], us) {
        var i :| 0 <= i < |us| && Prefix([a], us)[i] == (q, v);
        assert q == [a] + us[i].0 && us[i] == (q[1..], v);
      }
      if q != [] && q[0] == a && (q[1..], v) in us {
        var i :| 0 <= i < |us| && us[i] == (q[1..], v);
        assert Prefix([a], us)[i] == (q, v) by { assert [a] + q[1..] == q; }
      }
    }
  }

  lemma PrefixAppend(p: seq<PathElem>, us: seq<Leaf>, vs: seq<Leaf>)
    ensures Prefix(p, us) + Prefix(p, vs) == Prefix(p, us + vs)
  {
  }

  lemma PrefixTwice(p: seq<PathElem>, a: PathElem, us: seq<Leaf>)
    ensures Prefix(p + [a], us) == Prefix(p, Prefix([a], us))
  {
    forall i | 0 <= i < |us| ensures (p + [a]) + us[i].0 == p + ([a] + us[i].0) {}
  }

  lemma {:induction false} EntryAtAppend(e: Entry, p: seq<PathElem>, a: PathElem)
    ensures EntryAt(e, p + [a]) == Child(EntryAt(e, p), a.name)
    decreases |p|
  {
    if p == [] {
      assert p + [a] == [a];
    } else {
      assert (p + [a])[1..] == p[1..] + [a];
      EntryAtAppend(Child(e, p[0].name), p[1..], a);
    }
  }

  // ---------------------------------------------------------------- the leaves of one field

  lemma LeafField(e: Entry, d: Json, k: string)
    requires d.Obj? && k in d.fields && IsLeaf(d.fields[k])
    ensures OneField(e, d, k, [([PathElem(k, map[])], d.fields[k])])
  {
    var x := d.fields[k];
    forall q: seq<PathElem>, v: Json | In(e, d, q, v) && q[0].name == k ensures q == [PathElem(k, map[])] && v == x {
      InField(e, d, q, v);
    }
    assert In(e, d, [PathElem(k, map[])], x);
    OrderedSingle(e, d, ([PathElem(k, map[])], x));
  }

  lemma ContainerField(e: Entry, d: Json, k: string, us: seq<Leaf>)
    requires d.Obj? && k in d.fields && d.fields[k].Obj? && Emission(Child(e, k), d.fields[k], us)
    ensures OneField(e, d, k, Prefix([PathElem(k, map[])], us))
  {
    PrefixOne(PathElem(k, map[]), us);
    OrderedContainer(e, d, k, us);
    forall q: seq<PathElem>, v: Json
      ensures (q, v) in Prefix([PathElem(k, map[])], us) <==> In(e, d, q, v) && q[0].name == k
    {
      if In(e, d, q, v) && q[0].name == k {
        InField(e, d, q, v);
        assert q[0] == PathElem(k, map[]) && (q[1..], v) in us;
      }
    }
  }

  lemma ListField(e: Entry, d: Json, k: string, us: seq<Leaf>)
    requires d.Obj? && k in d.fields && d.fields[k].Arr? && !IsLeaf(d.fields[k]) && Child(e, k).keys != []
    requires ValidEntries(Child(e, k), d.fields[k].items)
    requires EntryLeaves(Child(e, k), d.fields[k].items, k, |d.fields[k].items|, us)
    ensures OneField(e, d, k, us)
  {
    var c, items := Child(e, k), d.fields[k].items;
    forall u | u in us ensures |u.0| > 1 && u.0[0].name == k && u.0[0].key != map[] {
      assert (u.0, u.1) in us;
      var i :| 0 <= i < |items| && EntryKey(c, items, u.0[0].key, i) && In(c, items[i], u.0[1..], u.1);
      assert c.keys[0] in u.0[0].key;
    }
    OrderedList(e, d, k, us);
    forall q: seq<PathElem>, v: Json ensures (q, v) in us <==> In(e, d, q, v) && q[0].name == k {
      if (q, v) in us {
        var i :| 0 <= i < |items| && EntryKey(c, items, q[0].key, i) && In(c, items[i], q[1..], v);
        assert c.keys[0] in q[0].key;
      }
      if In(e, d, q, v) && q[0].name == k {
        InField(e, d, q, v);
        var i :| EntryKey(c, items, q[0].key, i) && In(c, items[i], q[1..], v);
      }
    }
  }

  lemma OneMoreEntry(c: Entry, items: seq<Json>, k: string, n: nat, us: seq<Leaf>, sub: seq<Leaf>)
    requires n < |items| && ValidEntries(c, items) && c.keys != []
    requires EntryLeaves(c, items, k, n, us) && Emission(c, items[n], sub)
    ensures EntryLeaves(c, items, k, n + 1, us + Prefix([PathElem(k, KeyOf(c.keys, items[n]))], sub))
  {
    var a := PathElem(k, KeyOf(c.keys, items[n]));
    PrefixOne(a, sub);
    if n > 0 {
      var q, v := SomeLeafOfEntry(c, items, k, n - 1);
      assert (q, v) in us;
    }
    ListOrderedJoin(c, items, k, n, us, sub);
    forall q: seq<PathElem>, v: Json
      ensures (q, v) in us + Prefix([a], sub) <==>
        |q| > 1 && q[0].name == k &&
         exists i :: 0 <= i < n + 1 && EntryKey(c, items, q[0].key, i) && In(c, items[i], q[1..], v)
    {
      if (q, v) in Prefix([a], sub) {
        assert EntryKey(c, items, q[0].key, n) && In(c, items[n], q[1..], v);
      }
      if |q| > 1 && q[0].name == k {
        if i :| 0 <= i < n + 1 && EntryKey(c, items, q[0].key, i) && In(c, items[i], q[1..], v) {
          if i == n { assert q[0] == a && (q[1..], v) in sub; }
        }
      }
    }
  }

  /** The key leaves are fields of a valid entry. */
  lemma KeyFields(e: Entry, d: Json, key: map<string, string>)
    requires HasKeys(e.keys, d) && KeyOf(e.keys, d) == key
    ensures forall k | k in key :: k in d.fields && d.fields[k] == Str(key[k])
  {
  }

  // ---------------------------------------------------------------- the code

  /** The granular updates of a document at a path, added to those already collected.  The result
      is an error for a list entry without keys in the schema. */
  method Granular(p: seq<PathElem>, d: Json, rs: Entry, sprint: Json -> string, upds: seq<Leaf>)
    returns (out: seq<Leaf>, ok: bool, ghost rel: seq<Leaf>)
    ensures var e, key := EntryAt(rs, p), LastKey(p);
            var x := Seen(e, key, d, sprint);
            Explodes(e, key, x) ==> ok && out == upds + Prefix(p, rel) && Emission(e, x, rel)
    decreases d, 2
  {
    ghost var e, key := EntryAt(rs, p), LastKey(p);
    ghost var x := Seen(e, key, d, sprint);
    SeenKind(e, key, d, sprint);
    hide Seen, In, FieldLeaves, Emission, EntryAt, Prefix;
    ghost var keyed;
    out, keyed := KeyUpdates(p, upds, e, x);
    ok, rel := true, keyed;
    if d.Obj? {
      ghost var fields;
      SeenFields(e, key, d, sprint);
      out, ok, fields := OtherFields(p, d, LastKey(p), rs, sprint, out, x);
      rel := keyed + fields;
      if Explodes(e, key, x) {
        PrefixAppend(p, keyed, fields);
        AllFields(e, x, key.Keys, keyed, fields);
      }
    }
  }

  lemma SeenKind(e: Entry, key: map<string, string>, d: Json, sprint: Json -> string)
    ensures Seen(e, key, d, sprint).Obj? <==> d.Obj?
  {
  }

  /** `x` is the document as it is seen, outside of the key leaves. */
  ghost predicate SeenAs(e: Entry, key: map<string, string>, d: Json, x: Json, sprint: Json -> string) {
    && d.Obj? && x.Obj? && x.fields.Keys - key.Keys == d.fields.Keys - key.Keys
    && forall k | k in d.fields && k !in key ::
         k in x.fields && x.fields[k] == TextedField(Child(e, k), d.fields[k], sprint)
  }

  lemma SeenFields(e: Entry, key: map<string, string>, d: Json, sprint: Json -> string)
    requires d.Obj?
    ensures SeenAs(e, key, d, Seen(e, key, d, sprint), sprint)
  {
  }

  /** The loop over the fields that are not key leaves, in any order. */
  method OtherFields(p: seq<PathElem>, d: Json, key: map<string, string>, rs: Entry, sprint: Json -> string,
      upds: seq<Leaf>, ghost x: Json)
    returns (out: seq<Leaf>, ok: bool, ghost rel: seq<Leaf>)
    requires SeenAs(EntryAt(rs, p), key, d, x, sprint)
    ensures var e := EntryAt(rs, p);
            ValidObj(e, x) ==>
              ok && out == upds + Prefix(p, rel) && FieldLeaves(e, x, x.fields.Keys - key.Keys, rel)
    decreases d, 1
  {
    ghost var e := EntryAt(rs, p);
    NoFields(e, x);
    hide ValidObj, FieldLeaves, OneField, EntryAt, In, TextedField;
    ghost var good := ValidObj(e, x);
    out, ok, rel := upds, true, [];
    var todo := d.fields.Keys - key.Keys;
    ghost var done: set<string> := {};
    while todo != {}
      invariant todo <= d.fields.Keys - key.Keys && done == d.fields.Keys - key.Keys - todo && ok
      invariant good ==> out == upds + Prefix(p, rel) && FieldLeaves(e, x, done, rel)
      decreases todo
    {
      var k :| k in todo;
      ghost var sub;
      out, ok, sub := Field(p, d, k, rs, sprint, out, x);
      if !ok { return; }
      todo := todo - {k};
      if good {
        PrefixAppend(p, rel, sub);
        FieldsJoin(e, x, done, rel, k, sub);
      }
      done := done + {k};
      rel := rel + sub;
    }
    assert done == x.fields.Keys - key.Keys;
  }

  lemma NoFields(e: Entry, d: Json)
    ensures FieldLeaves(e, d, {}, [])
  {
  }

  lemma AllFields(e: Entry, d: Json, keys: set<string>, keyed: seq<Leaf>, fields: seq<Leaf>)
    requires d.Obj? && FieldLeaves(e, d, d.fields.Keys - (d.fields.Keys - keys), keyed)
    requires FieldLeaves(e, d, d.fields.Keys - keys, fields)
    ensures Emission(e, d, keyed + fields)
  {
    OrderedJoin(e, d, keyed, fields);
    hide Ordered;
    forall q: seq<PathElem>, v: Json ensures (q, v) in keyed + fields <==> In(e, d, q, v) {
    }
  }

  lemma FieldsJoin(e: Entry, d: Json, done: set<string>, us: seq<Leaf>, k: string, sub: seq<Leaf>)
    requires FieldLeaves(e, d, done, us) && OneField(e, d, k, sub)
    ensures FieldLeaves(e, d, done + {k}, us + sub)
  {
    hide In, Ordered;
    OrderedJoin(e, d, us, sub);
  }

  /** The key leaves of the last path element, as updates. */
  method KeyUpdates(p: seq<PathElem>, upds: seq<Leaf>, ghost e: Entry, ghost d: Json)
    returns (out: seq<Leaf>, ghost rel: seq<Leaf>)
    ensures Explodes(e, LastKey(p), d) ==>
              out == upds + Prefix(p, rel) && FieldLeaves(e, d, d.fields.Keys - (d.fields.Keys - LastKey(p).Keys), rel)
  {
    out, rel := upds, [];
    var key := LastKey(p);
    var todo := key.Keys;
    while todo != {}
      invariant todo <= key.Keys
      invariant Explodes(e, key, d) ==> out == upds + Prefix(p, rel) && FieldLeaves(e, d, key.Keys - todo, rel)
      decreases todo
    {
      var k :| k in todo;
      ghost var done := key.Keys - todo;
      todo := todo - {k};
      ghost var sub := [([PathElem(k, map[])], Str(key[k]))];
      out := out + [(p + [PathElem(k, map[])], Str(key[k]))];
      if Explodes(e, key, d) {
        KeyFields(e, d, key);
        LeafField(e, d, k);
        PrefixAppend(p, rel, sub);
        FieldsJoin(e, d, done, rel, k, sub);
        assert key.Keys - todo == done + {k};
      }
      rel := rel + sub;
    }
    if Explodes(e, key, d) {
      if key != map[] { KeyFields(e, d, key); }
      assert key.Keys == d.fields.Keys - (d.fields.Keys - key.Keys);
    }
  }

  /** The updates of one field; `x` is the document as it is seen. */
  method Field(p: seq<PathElem>, d: Json, k: string, rs: Entry, sprint: Json -> string, upds: seq<Leaf>, ghost x: Json)
    returns (out: seq<Leaf>, ok: bool, ghost rel: seq<Leaf>)
    requires d.Obj? && k in d.fields
    requires x.Obj? && k in x.fields
    requires x.fields[k] == TextedField(Child(EntryAt(rs, p), k), d.fields[k], sprint)
    ensures ValidObj(EntryAt(rs, p), x) ==>
              ok && out == upds + Prefix(p, rel) && OneField(EntryAt(rs, p), x, k, rel)
    decreases d, 0
  {
    ghost var e := EntryAt(rs, p);
    ghost var c := Child(e, k);
    EntryAtAppend(rs, p, PathElem(k, map[]));
    var y := d.fields[k];
    ghost var z := x.fields[k];
    assert ValidObj(e, x) ==> ValidField(c, z);
    match y
    case Arr(items) =>
      var leaflist;
      out, ok, leaflist, rel := Entries(p, k, items, rs, sprint, upds);
      StillList(c, items, sprint);
      if !ok { return; }
      if leaflist {
        out := out + [(p + [PathElem(k, map[])], y)];
        ghost var sub := [([PathElem(k, map[])], y)];
        PrefixAppend(p, rel, sub);
        if ValidObj(e, x) {
          assert IsLeaf(y) && rel == [];
          LeafField(e, x, k);
        }
        rel := rel + sub;
      } else if ValidObj(e, x) {
        ListField(e, x, k, rel);
      }
    case Obj(_) =>
      var a := PathElem(k, map[]);
      ghost var sub;
      out, ok, sub := Granular(p + [a], y, rs, sprint, upds);
      rel := Prefix([a], sub);
      PrefixTwice(p, a, sub);
      if ValidObj(e, x) {
        SeenPlain(c, y, sprint);
        ContainerField(e, x, k, sub);
      }
    case _ =>
      out, ok := upds + [(p + [PathElem(k, map[])], y)], true;
      rel := [([PathElem(k, map[])], y)];
      if ValidObj(e, x) { LeafField(e, x, k); }
  }

  lemma SeenPlain(c: Entry, y: Json, sprint: Json -> string)
    requires y.Obj?
    ensures Seen(c, map[], y, sprint) == Texted(c, y, sprint)
  {
    var m := Texted(c, y, sprint).fields;
    assert m + KeyLeaves(map[]) == m;
  }

  /** A list is a leaf-list exactly when its texted form is. */
  lemma StillList(c: Entry, items: seq<Json>, sprint: Json -> string)
    ensures IsLeaf(TextedField(c, Arr(items), sprint)) <==> IsLeaf(Arr(items))
  {
    var r := TextedEntries(c, items, sprint);
    forall i | 0 <= i < |items| ensures r[i].Obj? <==> items[i].Obj? { EntryKind(c, items[i], sprint); }
  }

  lemma EntryKind(c: Entry, x: Json, sprint: Json -> string)
    ensures TextedEntry(c, x, sprint).Obj? <==> x.Obj?
  {
  }

  /** The loop over the items of a list: entries are exploded under their keys; any other item
      makes the whole a leaf-list. */
  method Entries(p: seq<PathElem>, k: string, items: seq<Json>, rs: Entry, sprint: Json -> string, upds: seq<Leaf>)
    returns (out: seq<Leaf>, ok: bool, leaflist: bool, ghost rel: seq<Leaf>)
    ensures IsLeaf(Arr(items)) ==> ok && leaflist && out == upds && rel == []
    ensures var c := Child(EntryAt(rs, p), k);
            var xs := TextedEntries(c, items, sprint);
            c.keys != [] && items != [] && ValidEntries(c, xs) ==>
              ok && !leaflist && out == upds + Prefix(p, rel) && EntryLeaves(c, xs, k, |xs|, rel)
    decreases items, 0
  {
    ghost var c := Child(EntryAt(rs, p), k);
    ghost var xs := TextedEntries(c, items, sprint);
    EntryAtAppend(rs, p, PathElem(k, map[]));
    out, ok, leaflist, rel := upds, true, false, [];
    var keys := EntryAt(rs, p + [PathElem(k, map[])]).keys;
    assert keys == c.keys;
    ghost var good := c.keys != [] && items != [] && ValidEntries(c, xs);
    ghost var scalars := items != [] && forall i | 0 <= i < |items| :: !items[i].Obj?;
    assert scalars <==> IsLeaf(Arr(items));
    NoEntries(c, xs, k);
    hide PathWithKeys, Explodes, ValidEntries, EntryLeaves, LeavesOf, IsLeaf, EntryAt, TextedEntries, Seen;
    var i := 0;
    while i < |items|
      invariant 0 <= i <= |items| && ok
      invariant scalars ==> (leaflist <==> i > 0) && out == upds && rel == []
      invariant good ==> !leaflist && out == upds + Prefix(p, rel) && EntryLeaves(c, xs, k, i, rel)
    {
      if good { EntryExplodes(c, items, k, i, sprint); }
      if items[i].Obj? {
        ghost var sub;
        out, ok, sub := EntryUpdates(p, k, keys, items[i], rs, sprint, out);
        if !ok { return; }
        if good { EntryJoins(p, upds, c, xs, k, i, rel, sub); }
        rel := rel + Prefix([PathElem(k, KeyOf(c.keys, xs[i]))], sub);
      } else {
        leaflist := true;
      }
      i := i + 1;
    }
  }

  lemma EntryJoins(p: seq<PathElem>, upds: seq<Leaf>, c: Entry, items: seq<Json>,
      k: string, n: nat, rel: seq<Leaf>, sub: seq<Leaf>)
    requires n < |items| && ValidEntries(c, items) && c.keys != []
    requires EntryLeaves(c, items, k, n, rel) && Emission(c, items[n], sub)
    ensures var more := Prefix([PathElem(k, KeyOf(c.keys, items[n]))], sub);
            && upds + Prefix(p, rel) + Prefix(p, more) == upds + Prefix(p, rel + more)
            && EntryLeaves(c, items, k, n + 1, rel + more)
  {
    PrefixAppend(p, rel, Prefix([PathElem(k, KeyOf(c.keys, items[n]))], sub));
    OneMoreEntry(c, items, k, n, rel, sub);
  }

  /** The updates of one list entry, under its key. */
  method EntryUpdates(p: seq<PathElem>, k: string, keys: seq<string>, item: Json, rs: Entry,
      sprint: Json -> string, upds: seq<Leaf>)
    returns (out: seq<Leaf>, ok: bool, ghost sub: seq<Leaf>)
    requires item.Obj? && keys == Child(EntryAt(rs, p), k).keys
    ensures var c, a := Child(EntryAt(rs, p), k), PathWithKeys(keys, k, item.fields, sprint);
            var x := Seen(c, a.key, item, sprint);
            keys != [] && Explodes(c, a.key, x) ==>
              ok && out == upds + Prefix(p, Prefix([a], sub)) && Emission(c, x, sub)
    decreases item, 3
  {
    if keys == [] { return upds, false, []; }
    var a := PathWithKeys(keys, k, item.fields, sprint);
    EntryAtAppend(rs, p, a);
    out, ok, sub := Granular(p + [a], item, rs, sprint, upds);
    PrefixTwice(p, a, sub);
  }

  lemma NoEntries(c: Entry, items: seq<Json>, k: string)
    ensures EntryLeaves(c, items, k, 0, [])
  {
  }

  /** The path element of an entry carries the key that the entry shows. */
  lemma EntryExplodes(c: Entry, items: seq<Json>, k: string, i: nat, sprint: Json -> string)
    requires c.keys != [] && i < |items| && ValidEntries(c, TextedEntries(c, items, sprint))
    ensures items[i].Obj?
    ensures var x, a := TextedEntries(c, items, sprint)[i], PathWithKeys(c.keys, k, items[i].fields, sprint);
            && x == Seen(c, a.key, items[i], sprint)
            && a == PathElem(k, KeyOf(c.keys, x))
            && Explodes(c, a.key, x)
  {
    var x := TextedEntries(c, items, sprint)[i];
    assert x == TextedEntry(c, items[i], sprint);
    assert ValidObj(c, x) && HasKeys(c.keys, x);
    hide ValidObj, Texted;
    var key := PathWithKeys(c.keys, k, items[i].fields, sprint).key;
    assert KeyOf(c.keys, x) == key;
  }

  /** What the key leaves of an entry become: a string stays, any other value, or none, is printed. */
  lemma KeyLeavesAsTexts(c: Entry, m: map<string, Json>, sprint: Json -> string)
    ensures var x := TextedEntry(c, Obj(m), sprint);
            && x.Obj? && x.fields.Keys == m.Keys + set k | k in c.keys
            && (forall k | k in c.keys && k in m :: x.fields[k] == if m[k].Str? then m[k] else Str(sprint(m[k])))
            && (forall k | k in c.keys && k !in m :: x.fields[k] == Str(sprint(Null)))
  {
  }

  // ---------------------------------------------------------------- keys that are texts already

  /** A valid document is seen as it is. */
  lemma SeenAsIs(e: Entry, key: map<string, string>, d: Json, sprint: Json -> string)
    requires Explodes(e, key, d)
    ensures Seen(e, key, d, sprint) == d
  {
    TextedAsIs(e, d, sprint);
    if key != map[] { KeyFields(e, d, key); }
    assert d.fields + KeyLeaves(key) == d.fields;
  }

  lemma {:induction false} TextedAsIs(e: Entry, d: Json, sprint: Json -> string)
    requires ValidObj(e, d)
    ensures Texted(e, d, sprint) == d
    decreases d, 1
  {
    forall k | k in d.fields ensures TextedField(Child(e, k), d.fields[k], sprint) == d.fields[k] {
      var c, y := Child(e, k), d.fields[k];
      assert ValidField(c, y);
      if y.Obj? {
        TextedAsIs(c, y, sprint);
      } else if y.Arr? && !IsLeaf(y) {
        EntriesAsIs(c, y.items, sprint);
      }
    }
  }

  lemma {:induction false} EntriesAsIs(c: Entry, items: seq<Json>, sprint: Json -> string)
    requires ValidEntries(c, items)
    ensures TextedEntries(c, items, sprint) == items
    decreases items
  {
    forall i | 0 <= i < |items| ensures TextedEntry(c, items[i], sprint) == items[i] {
      var x := items[i];
      TextedAsIs(c, x, sprint);
      var key := PathWithKeys(c.keys, "", x.fields, sprint).key;
      assert key == KeyOf(c.keys, x);
      assert x.fields + KeyLeaves(key) == x.fields;
    }
  }
}
