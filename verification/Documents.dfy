/** JSON documents under a schema: which documents are valid, which leaf updates a document
    stands for, and equality up to the order of list entries. */
module Documents {
  import opened Gnmi

  /** A schema node: the key leaves of a list entry, and the child nodes. */
  datatype Entry = Entry(keys: seq<string>, children: map<string, Entry>)

  /** The schema node of a child; one without keys or children where the schema has none. */
  function Child(e: Entry, name: string): Entry {
    if name in e.children then e.children[name] else Entry([], map[])
  }

  /** The schema node at the end of a path. */
  function EntryAt(e: Entry, path: seq<PathElem>): Entry
    decreases path
  {
    if path == [] then e else EntryAt(Child(e, path[0].name), path[1..])
  }

  /** A leaf update: a path and a value. */
  type Leaf = (seq<PathElem>, Json)

  /** A value that is stored as a whole: a scalar, or a leaf-list. */
  predicate IsLeaf(x: Json) {
    match x
    case Obj(_) => false
    case Arr(items) => items != [] && forall i | 0 <= i < |items| :: !items[i].Obj?
    case _ => true
  }

  predicate HasKeys(keys: seq<string>, x: Json) {
    x.Obj? && forall k | k in keys :: k in x.fields && x.fields[k].Str?
  }

  /** The key leaves of a list entry, as a path element carries them. */
  function KeyOf(keys: seq<string>, x: Json): map<string, string> {
    if x.Obj? then map k | k in keys && k in x.fields && x.fields[k].Str? :: x.fields[k].s else map[]
  }

  /** A container or list entry of the schema: not empty, every field valid. */
  ghost predicate ValidObj(e: Entry, x: Json)
    decreases x, 0
  {
    x.Obj? && x.fields != map[] && forall k | k in x.fields :: ValidField(Child(e, k), x.fields[k])
  }

  /** A leaf, a container, or a list whose entries have their keys, each key once. */
  ghost predicate ValidField(c: Entry, x: Json)
    decreases x, 1
  {
    match x
    case Obj(_) => ValidObj(c, x)
    case Arr(items) => IsLeaf(x) || (items != [] && c.keys != [] && ValidEntries(c, items))
    case _ => true
  }

  ghost predicate ValidEntries(c: Entry, items: seq<Json>)
    decreases items
  {
    && (forall i | 0 <= i < |items| :: ValidObj(c, items[i]) && HasKeys(c.keys, items[i]))
    && DistinctKeys(c.keys, items)
  }

  ghost predicate DistinctKeys(keys: seq<string>, items: seq<Json>) {
    forall i, j | 0 <= i < j < |items| :: KeyOf(keys, items[i]) != KeyOf(keys, items[j])
  }

  /** `items` has an entry with this key at index `i`. */
  predicate EntryKey(c: Entry, items: seq<Json>, key: map<string, string>, i: int) {
    0 <= i < |items| && HasKeys(c.keys, items[i]) && KeyOf(c.keys, items[i]) == key
  }

  /** The document has the leaf `v` at `q`: this is the meaning of its granular updates. */
  ghost predicate In(e: Entry, x: Json, q: seq<PathElem>, v: Json)
    decreases q
  {
    && x.Obj? && q != [] && q[0].name in x.fields
    && var c, y := Child(e, q[0].name), x.fields[q[0].name];
       if q[0].key == map[] then
         if |q| == 1 then IsLeaf(y) && v == y else In(c, y, q[1..], v)
       else
         y.Arr? && exists i :: EntryKey(c, y.items, q[0].key, i) && In(c, y.items[i], q[1..], v)
  }

  /** The updates are exactly the leaves of the document, in any order and with any repetitions. */
  ghost predicate LeavesOf(e: Entry, d: Json, us: seq<Leaf>) {
    forall q, v :: (q, v) in us <==> In(e, d, q, v)
  }

  /** How a leaf is reached through a field, by the kind of the field. */
  lemma InField(e: Entry, x: Json, q: seq<PathElem>, v: Json)
    requires In(e, x, q, v)
    ensures x.Obj? && q != [] && q[0].name in x.fields
    ensures var c, y := Child(e, q[0].name), x.fields[q[0].name];
            && (IsLeaf(y) ==> q == [PathElem(q[0].name, map[])] && v == y)
            && (y.Obj? ==> q[0].key == map[] && |q| > 1 && In(c, y, q[1..], v))
            && (y.Arr? && !IsLeaf(y) ==>
                  && q[0].key != map[] && |q| > 1
                  && exists i :: EntryKey(c, y.items, q[0].key, i) && In(c, y.items[i], q[1..], v))
  {
    var c, y := Child(e, q[0].name), x.fields[q[0].name];
    if q[0].key != map[] {
      var i :| EntryKey(c, y.items, q[0].key, i) && In(c, y.items[i], q[1..], v);
      assert y.items[i].Obj?;
    } else {
      assert q[0] == PathElem(q[0].name, map[]);
      if |q| > 1 { assert In(c, y, q[1..], v); }
    }
  }

  /** Every field of a valid document holds a leaf. */
  lemma {:induction false} SomeLeafOf(e: Entry, d: Json, k: string) returns (q: seq<PathElem>, v: Json)
    requires ValidObj(e, d) && k in d.fields
    ensures In(e, d, q, v) && q[0].name == k
    decreases d
  {
    var c, y := Child(e, k), d.fields[k];
    assert ValidField(c, y);
    if IsLeaf(y) {
      q, v := [PathElem(k, map[])], y;
    } else if y.Obj? {
      var k' :| k' in y.fields;
      var q', v' := SomeLeafOf(c, y, k');
      q, v := [PathElem(k, map[])] + q', v';
      assert q[1..] == q';
    } else {
      q, v := SomeLeafOfEntry(c, y.items, k, 0);
      assert In(e, d, q, v);
    }
  }

  /** Every entry of a valid list holds a leaf, under its key. */
  lemma {:induction false} SomeLeafOfEntry(c: Entry, items: seq<Json>, k: string, i: nat)
       returns (q: seq<PathElem>, v: Json)
    requires ValidEntries(c, items) && c.keys != [] && i < |items|
    ensures |q| > 1 && q[0] == PathElem(k, KeyOf(c.keys, items[i])) && q[0].key != map[]
    ensures EntryKey(c, items, q[0].key, i) && In(c, items[i], q[1..], v)
    decreases items[i]
  {
    var name := c.keys[0];
    var leaf := items[i].fields[name];
    q, v := [PathElem(k, KeyOf(c.keys, items[i])), PathElem(name, map[])], leaf;
    assert name in KeyOf(c.keys, items[i]);
    assert q[1..] == [PathElem(name, map[])];
  }

  // ---------------------------------------------------------------- equality up to list order

  /** `f` is a permutation of 0, ..., n-1. */
  ghost predicate Permutation(f: seq<nat>, n: nat) {
    && |f| == n
    && (forall i | 0 <= i < n :: f[i] < n)
    && (forall i, j | 0 <= i < j < n :: f[i] != f[j])
  }

  /** The same document, except that the entries of lists may be in another order. */
  ghost predicate SameDoc(x: Json, y: Json)
    decreases x
  {
    if x.Obj? && y.Obj? then
      x.fields.Keys == y.fields.Keys && forall k | k in x.fields :: SameDoc(x.fields[k], y.fields[k])
    else if x.Arr? && y.Arr? && !IsLeaf(y) then
      && |x.items| == |y.items|
      && exists f :: Permutation(f, |y.items|) && SameEntries(x.items, y.items, f)
    else x == y
  }

  ghost predicate SameEntries(xs: seq<Json>, ys: seq<Json>, f: seq<nat>)
    requires Permutation(f, |ys|) && |xs| == |ys|
    decreases xs
  {
    forall i | 0 <= i < |xs| :: SameDoc(xs[i], ys[f[i]])
  }

  /** An injective sequence that hits every index below `m` is a permutation. */
  lemma Bijection(f: seq<nat>, m: nat)
    requires forall i | 0 <= i < |f| :: f[i] < m
    requires forall i, j | 0 <= i < j < |f| :: f[i] != f[j]
    requires forall j | 0 <= j < m :: j in f
    ensures Permutation(f, m)
  {
    DistinctCount(f);
    BelowCount(m);
    assert Elements(f) == Below(m);
  }

  ghost function Elements(f: seq<nat>): (s: set<nat>)
    ensures forall x :: x in s <==> x in f
  {
    if f == [] then {} else Elements(f[..|f| - 1]) + {f[|f| - 1]}
  }

  ghost function Below(m: nat): (s: set<nat>)
    ensures forall j :: j in s <==> 0 <= j < m
  {
    if m == 0 then {} else Below(m - 1) + {m - 1}
  }

  lemma {:induction false} DistinctCount(f: seq<nat>)
    requires forall i, j | 0 <= i < j < |f| :: f[i] != f[j]
    ensures |Elements(f)| == |f|
  {
    if f != [] { DistinctCount(f[..|f| - 1]); }
  }

  lemma {:induction false} BelowCount(m: nat)
    ensures |Below(m)| == m
  {
    if m > 0 { BelowCount(m - 1); }
  }
}
