/** The leafref check: whether a document has anything at a path, against its leaf updates. */
module PathPresent {
  import opened Gnmi
  import opened Documents

  /** A key leaf as text: strings as they are; numbers are printed without decimals. */
  function KeyMatches(x: Json, text: string, print0: real -> string): bool {
    match x
    case Str(s) => s == text
    case Num(n) => print0(n) == text
    case _ => false
  }

  /** findKey. */
  predicate FindKey(key: map<string, string>, m: map<string, Json>, print0: real -> string) {
    forall k | k in key :: k in m && KeyMatches(m[k], key[k], print0)
  }

  function IsDataPresent(name: string, x: Json): Option<Json> {
    if x.Obj? && name in x.fields then Some(x.fields[name]) else None
  }

  /** IsPathPresent, below the root of the resource. */
  predicate IsPathPresent(rp: seq<PathElem>, value: string, x: Json, print0: real -> string)
    decreases |rp|, 0
  {
    rp != [] &&
    match IsDataPresent(rp[0].name, x)
    case None => false
    case Some(y) =>
      if rp[0].key != map[] then y.Arr? && EntryPresent(rp, value, y.items, print0)
      else if |rp| == 1 then value == "" || y == Str(value)
      else IsPathPresent(rp[1..], value, y, print0)
  }

  /** The loop over the list: the first entry with the key decides. */
  predicate EntryPresent(rp: seq<PathElem>, value: string, items: seq<Json>, print0: real -> string)
    requires rp != []
    decreases |rp|, 0, |items|
  {
    if items == [] then false
    else if items[0].Obj? && FindKey(rp[0].key, items[0].fields, print0) then
      |rp| == 1 || IsPathPresent(rp[1..], value, items[0], print0)
    else EntryPresent(rp, value, items[1..], print0)
  }

  /** The path names the schema's keys at every list, and no others. */
  ghost predicate FullyKeyed(e: Entry, rp: seq<PathElem>)
    decreases rp
  {
    rp != [] ==>
      var c := Child(e, rp[0].name);
      (forall k :: k in rp[0].key <==> k in c.keys) && FullyKeyed(c, rp[1..])
  }

  // ---------------------------------------------------------------- what a document has at a path

  /** A key leaf shows this text: a string as it is, a number as it is printed without decimals. */
  ghost predicate Shows(x: Json, text: string, print0: real -> string) {
    x == Str(text) || exists n :: x == Num(n) && print0(n) == text
  }

  ghost predicate ShowsKey(x: Json, key: map<string, string>, print0: real -> string) {
    x.Obj? && forall k | k in key :: k in x.fields && Shows(x.fields[k], key[k], print0)
  }

  lemma FindKeyShows(x: Json, key: map<string, string>, print0: real -> string)
    requires x.Obj?
    ensures FindKey(key, x.fields, print0) <==> ShowsKey(x, key, print0)
  {
    forall k | k in key && k in x.fields
      ensures KeyMatches(x.fields[k], key[k], print0) <==> Shows(x.fields[k], key[k], print0)
    {
      var y := x.fields[k];
      if y.Num? { assert y == Num(y.n); }
    }
  }

  /** `items` has an entry that shows this key, with the schema's names, at index `i`. */
  ghost predicate EntryShows(c: Entry, items: seq<Json>, key: map<string, string>, i: int, print0: real -> string) {
    0 <= i < |items| && (forall k :: k in key <==> k in c.keys) && ShowsKey(items[i], key, print0)
  }

  /** A container or list entry of the schema, as `ValidObj`, but with strings or numbers in the key
      leaves of list entries. */
  ghost predicate GoodObj(e: Entry, x: Json, print0: real -> string)
    decreases x, 0
  {
    x.Obj? && x.fields != map[] && forall k | k in x.fields :: GoodField(Child(e, k), x.fields[k], print0)
  }

  ghost predicate GoodField(c: Entry, x: Json, print0: real -> string)
    decreases x, 1
  {
    match x
    case Obj(_) => GoodObj(c, x, print0)
    case Arr(items) => IsLeaf(x) || (items != [] && c.keys != [] && GoodEntries(c, items, print0))
    case _ => true
  }

  /** Each entry shows a key, and no two show the same. */
  ghost predicate GoodEntries(c: Entry, items: seq<Json>, print0: real -> string)
    decreases items
  {
    && (forall i | 0 <= i < |items| :: GoodObj(c, items[i], print0) && HasShownKey(c, items, i, print0))
    && (forall i, j, key | EntryShows(c, items, key, i, print0) && EntryShows(c, items, key, j, print0) :: i == j)
  }

  ghost predicate HasShownKey(c: Entry, items: seq<Json>, i: int, print0: real -> string) {
    exists key :: EntryShows(c, items, key, i, print0)
  }

  /** The document has the leaf `v` at `q`, where the keys of list entries are the texts they show. */
  ghost predicate Has(e: Entry, x: Json, q: seq<PathElem>, v: Json, print0: real -> string)
    decreases q
  {
    && x.Obj? && q != [] && q[0].name in x.fields
    && var c, y := Child(e, q[0].name), x.fields[q[0].name];
       if q[0].key == map[] then
         if |q| == 1 then IsLeaf(y) && v == y else Has(c, y, q[1..], v, print0)
       else
         y.Arr? && exists i :: EntryShows(c, y.items, q[0].key, i, print0) && Has(c, y.items[i], q[1..], v, print0)
  }

  /** How a leaf is reached through a field, by the kind of the field. */
  lemma HasField(e: Entry, x: Json, q: seq<PathElem>, v: Json, print0: real -> string)
    requires Has(e, x, q, v, print0)
    ensures var c, y := Child(e, q[0].name), x.fields[q[0].name];
            && (IsLeaf(y) ==> q == [PathElem(q[0].name, map[])] && v == y)
            && (y.Obj? ==> q[0].key == map[] && |q| > 1 && Has(c, y, q[1..], v, print0))
            && (y.Arr? && !IsLeaf(y) ==>
                  && q[0].key != map[] && |q| > 1
                  && exists i :: EntryShows(c, y.items, q[0].key, i, print0) && Has(c, y.items[i], q[1..], v, print0))
  {
    var c, y := Child(e, q[0].name), x.fields[q[0].name];
    if q[0].key != map[] {
      var i :| EntryShows(c, y.items, q[0].key, i, print0) && Has(c, y.items[i], q[1..], v, print0);
      assert y.items[i].Obj?;
    } else {
      assert q[0] == PathElem(q[0].name, map[]);
      if |q| > 1 { assert Has(c, y, q[1..], v, print0); }
    }
  }

  /** Every field of a good document holds a leaf. */
  lemma {:induction false} SomeLeaf(e: Entry, d: Json, k: string, print0: real -> string)
    returns (q: seq<PathElem>, v: Json)
    requires GoodObj(e, d, print0) && k in d.fields
    ensures Has(e, d, q, v, print0) && q[0].name == k
    decreases d
  {
    var c, y := Child(e, k), d.fields[k];
    assert GoodField(c, y, print0);
    if IsLeaf(y) {
      q, v := [PathElem(k, map[])], y;
    } else if y.Obj? {
      var k' :| k' in y.fields;
      var q', v' := SomeLeaf(c, y, k', print0);
      q, v := [PathElem(k, map[])] + q', v';
      assert q[1..] == q';
    } else {
      assert GoodEntries(c, y.items, print0) && y.items[0] == y.items[0];
      assert HasShownKey(c, y.items, 0, print0);
      var key :| EntryShows(c, y.items, key, 0, print0);
      q, v := SomeLeafOfEntry(c, y.items, k, key, 0, print0);
      assert Has(e, d, q, v, print0);
    }
  }

  /** Every entry of a good list holds a leaf, under its key. */
  lemma SomeLeafOfEntry(c: Entry, items: seq<Json>, k: string, key: map<string, string>, i: int, print0: real -> string)
    returns (q: seq<PathElem>, v: Json)
    requires c.keys != [] && EntryShows(c, items, key, i, print0)
    ensures |q| > 1 && q[0] == PathElem(k, key) && q[0].key != map[]
    ensures Has(c, items[i], q[1..], v, print0)
  {
    var name := c.keys[0];
    assert name in key;
    var leaf := items[i].fields[name];
    q, v := [PathElem(k, key), PathElem(name, map[])], leaf;
    assert q[1..] == [PathElem(name, map[])];
  }

  /** What is asked of the entry with the key. */
  predicate Goes(rp: seq<PathElem>, value: string, x: Json, print0: real -> string) {
    |rp| == 1 || (rp != [] && IsPathPresent(rp[1..], value, x, print0))
  }

  /** Among entries with distinct keys, the first that matches is the one with the key. */
  lemma {:induction false} EntryDecides(c: Entry, rp: seq<PathElem>, value: string,
      items: seq<Json>, print0: real -> string)
    requires rp != [] && forall k :: k in rp[0].key <==> k in c.keys
    requires forall i, j, key | EntryShows(c, items, key, i, print0) && EntryShows(c, items, key, j, print0) :: i == j
    ensures EntryPresent(rp, value, items, print0) <==>
            exists i :: EntryShows(c, items, rp[0].key, i, print0) && Goes(rp, value, items[i], print0)
    decreases |items|
  {
    hide ShowsKey, IsPathPresent;
    if items != [] {
      var key, rest := rp[0].key, items[1..];
      if items[0].Obj? { FindKeyShows(items[0], key, print0); } else { NoKeyShown(items[0], key, print0); }
      RestShows(c, items, print0);
      EntryDecides(c, rp, value, rest, print0);
      if ShowsKey(items[0], key, print0) {
        assert EntryShows(c, items, key, 0, print0);
      } else {
        if i :| EntryShows(c, rest, key, i, print0) && Goes(rp, value, rest[i], print0) {
          assert EntryShows(c, items, key, i + 1, print0) && items[i + 1] == rest[i];
        }
        if i :| EntryShows(c, items, key, i, print0) && Goes(rp, value, items[i], print0) {
          assert EntryShows(c, rest, key, i - 1, print0) && items[i] == rest[i - 1];
        }
      }
    }
  }

  lemma NoKeyShown(x: Json, key: map<string, string>, print0: real -> string)
    requires !x.Obj?
    ensures !ShowsKey(x, key, print0)
  {
  }

  lemma RestShows(c: Entry, items: seq<Json>, print0: real -> string)
    requires items != []
    requires forall i, j, key | EntryShows(c, items, key, i, print0) && EntryShows(c, items, key, j, print0) :: i == j
    ensures var rest := items[1..];
            forall i, j, key | EntryShows(c, rest, key, i, print0) && EntryShows(c, rest, key, j, print0) :: i == j
  {
    hide ShowsKey;
    var rest := items[1..];
    forall i, j, key | EntryShows(c, rest, key, i, print0) && EntryShows(c, rest, key, j, print0) ensures i == j {
      assert EntryShows(c, items, key, i + 1, print0) && EntryShows(c, items, key, j + 1, print0);
    }
  }

  /** On any list the first entry that shows the key decides alone. */
  lemma {:induction false} FirstDecides(rp: seq<PathElem>, value: string, items: seq<Json>, n: nat,
      print0: real -> string)
    requires rp != [] && n <= |items| && forall i | 0 <= i < n :: !ShowsKey(items[i], rp[0].key, print0)
    requires n < |items| ==> ShowsKey(items[n], rp[0].key, print0)
    ensures EntryPresent(rp, value, items, print0) <==> n < |items| && Goes(rp, value, items[n], print0)
    decreases n
  {
    hide ShowsKey, IsPathPresent;
    if items != [] {
      if items[0].Obj? { FindKeyShows(items[0], rp[0].key, print0); } else { NoKeyShown(items[0], rp[0].key, print0); }
      if n > 0 { FirstDecides(rp, value, items[1..], n - 1, print0); }
    }
  }

  /** Some leaf of the document lies at or below the path. */
  ghost predicate LeafAtOrBelow(e: Entry, d: Json, rp: seq<PathElem>, print0: real -> string) {
    exists q, v :: Has(e, d, q, v, print0) && rp <= q
  }

  /** The check agrees with the explosion: a fully keyed path without a value is present exactly
      when it is a prefix of the path of some leaf update of the document. */
  lemma {:induction false} PresentIsPrefix(e: Entry, d: Json, rp: seq<PathElem>, print0: real -> string)
    requires GoodObj(e, d, print0) && rp != [] && FullyKeyed(e, rp)
    ensures IsPathPresent(rp, "", d, print0) <==> LeafAtOrBelow(e, d, rp, print0)
    decreases |rp|
  {
    var k := rp[0].name;
    if k in d.fields {
      var c, y := Child(e, k), d.fields[k];
      assert GoodField(c, y, print0);
      if rp[0].key != map[] {
        KeyedPresent(e, d, rp, print0);
      } else {
        PlainPresent(e, d, rp, print0);
      }
    }
  }

  /** A leaf below a path goes on below the rest of the path. */
  lemma BelowRest(e: Entry, d: Json, rp: seq<PathElem>, q: seq<PathElem>, v: Json, print0: real -> string)
    requires Has(e, d, q, v, print0) && rp != [] && rp <= q
    ensures q[0] == rp[0] && rp[1..] <= q[1..]
  {
    assert rp[1..] == q[1..|rp|];
  }

  lemma SomeKey(c: Entry)
    ensures c.keys != [] ==> exists k :: k in c.keys
  {
    if c.keys != [] { assert c.keys[0] in c.keys; }
  }

  lemma PlainPresent(e: Entry, d: Json, rp: seq<PathElem>, print0: real -> string)
    requires GoodObj(e, d, print0) && rp != [] && FullyKeyed(e, rp) && rp[0].key == map[] && rp[0].name in d.fields
    requires GoodField(Child(e, rp[0].name), d.fields[rp[0].name], print0)
    ensures IsPathPresent(rp, "", d, print0) <==> LeafAtOrBelow(e, d, rp, print0)
    decreases |rp|, 0
  {
    var k, rest := rp[0].name, rp[1..];
    var c, y := Child(e, k), d.fields[k];
    assert rp[0] == PathElem(k, map[]);
    SomeKey(c);
    assert IsLeaf(y) || y.Obj?;
    if rest == [] {
      var q, v := SomeLeaf(e, d, k, print0);
      HasField(e, d, q, v, print0);
      assert q[0] == rp[0];
      assert rp <= q;
    } else if y.Obj? {
      PresentIsPrefix(c, y, rest, print0);
      if LeafAtOrBelow(c, y, rest, print0) {
        var q: seq<PathElem>, v: Json :| Has(c, y, q, v, print0) && rest <= q;
        var q' := [rp[0]] + q;
        assert q'[1..] == q && rp <= q';
        assert Has(e, d, q', v, print0);
      }
      if LeafAtOrBelow(e, d, rp, print0) {
        var q: seq<PathElem>, v: Json :| Has(e, d, q, v, print0) && rp <= q;
        BelowRest(e, d, rp, q, v, print0);
        assert Has(c, y, q[1..], v, print0);
      }
    } else {
      forall q, v | Has(e, d, q, v, print0) ensures !(rp <= q) {
        HasField(e, d, q, v, print0);
      }
    }
  }

  lemma KeyedPresent(e: Entry, d: Json, rp: seq<PathElem>, print0: real -> string)
    requires GoodObj(e, d, print0) && rp != [] && FullyKeyed(e, rp) && rp[0].key != map[] && rp[0].name in d.fields
    requires GoodField(Child(e, rp[0].name), d.fields[rp[0].name], print0)
    ensures IsPathPresent(rp, "", d, print0) <==> LeafAtOrBelow(e, d, rp, print0)
    decreases |rp|, 0
  {
    var c, y := Child(e, rp[0].name), d.fields[rp[0].name];
    if y.Arr? && !IsLeaf(y) {
      EntryDecides(c, rp, "", y.items, print0);
      forall i | EntryShows(c, y.items, rp[0].key, i, print0)
        ensures (|rp| == 1 || IsPathPresent(rp[1..], "", y.items[i], print0)) <==> LeafAtOrBelow(e, d, rp, print0)
      {
        EntryBelow(e, d, rp, i, print0);
        if |rp| > 1 { PresentIsPrefix(c, y.items[i], rp[1..], print0); }
      }
      if LeafAtOrBelow(e, d, rp, print0) {
        var q: seq<PathElem>, v: Json :| Has(e, d, q, v, print0) && rp <= q;
        var i :| EntryShows(c, y.items, q[0].key, i, print0) && Has(c, y.items[i], q[1..], v, print0);
        assert EntryShows(c, y.items, rp[0].key, i, print0);
      }
    } else {
      if y.Arr? { NoEntries(rp, "", y.items, print0); }
      forall q, v | Has(e, d, q, v, print0) ensures !(rp <= q) {
        HasField(e, d, q, v, print0);
      }
    }
  }

  lemma {:induction false} NoEntries(rp: seq<PathElem>, value: string, items: seq<Json>, print0: real -> string)
    requires rp != [] && forall i | 0 <= i < |items| :: !items[i].Obj?
    ensures !EntryPresent(rp, value, items, print0)
    decreases |items|
  {
    if items != [] { NoEntries(rp, value, items[1..], print0); }
  }

  /** A leaf below a keyed path is a leaf of the one entry with the key. */
  lemma EntryBelow(e: Entry, d: Json, rp: seq<PathElem>, i: int, print0: real -> string)
    requires GoodObj(e, d, print0) && rp != [] && rp[0].key != map[] && rp[0].name in d.fields
    requires d.fields[rp[0].name].Arr?
    requires var c := Child(e, rp[0].name);
             && c.keys != [] && GoodEntries(c, d.fields[rp[0].name].items, print0)
             && EntryShows(c, d.fields[rp[0].name].items, rp[0].key, i, print0)
    ensures var c, y := Child(e, rp[0].name), d.fields[rp[0].name];
            LeafAtOrBelow(e, d, rp, print0) <==> |rp| == 1 || LeafAtOrBelow(c, y.items[i], rp[1..], print0)
  {
    var k, rest := rp[0].name, rp[1..];
    var c, items := Child(e, k), d.fields[k].items;
    if |rp| == 1 {
      var q, v := SomeLeafOfEntry(c, items, k, rp[0].key, i, print0);
      assert q[0] == rp[0] && rp <= q;
      assert Has(e, d, q, v, print0);
    } else {
      if LeafAtOrBelow(c, items[i], rest, print0) {
        var q: seq<PathElem>, v: Json :| Has(c, items[i], q, v, print0) && rest <= q;
        var q' := [rp[0]] + q;
        assert q'[1..] == q && rp <= q';
        assert Has(e, d, q', v, print0);
      }
      if LeafAtOrBelow(e, d, rp, print0) {
        var q: seq<PathElem>, v: Json :| Has(e, d, q, v, print0) && rp <= q;
        BelowRest(e, d, rp, q, v, print0);
        var i' :| EntryShows(c, items, q[0].key, i', print0) && Has(c, items[i'], q[1..], v, print0);
        assert i' == i;
        assert Has(c, items[i], q[1..], v, print0) && rest <= q[1..];
      }
    }
  }

  // ---------------------------------------------------------------- with a value

  /** At the end of a path with keys the value is not looked at. */
  lemma {:induction false} KeyedEnd(rp: seq<PathElem>, value: string, x: Json, print0: real -> string)
    requires rp != [] && rp[|rp| - 1].key != map[]
    ensures IsPathPresent(rp, value, x, print0) <==> IsPathPresent(rp, "", x, print0)
    decreases |rp|, 0
  {
    if x.Obj? && rp[0].name in x.fields {
      var y := x.fields[rp[0].name];
      if |rp| > 1 { assert rp[1..][|rp| - 2] == rp[|rp| - 1]; }
      if rp[0].key == map[] {
        KeyedEnd(rp[1..], value, y, print0);
      } else if y.Arr? {
        KeyedEndInList(rp, value, y.items, print0);
      }
    }
  }

  lemma {:induction false} KeyedEndInList(rp: seq<PathElem>, value: string, items: seq<Json>, print0: real -> string)
    requires rp != [] && rp[|rp| - 1].key != map[]
    ensures EntryPresent(rp, value, items, print0) <==> EntryPresent(rp, "", items, print0)
    decreases |rp|, 0, |items|
  {
    if |rp| > 1 { assert rp[1..][|rp| - 2] == rp[|rp| - 1]; }
    if items != [] {
      if items[0].Obj? && FindKey(rp[0].key, items[0].fields, print0) {
        if |rp| > 1 { KeyedEnd(rp[1..], value, items[0], print0); }
      } else {
        KeyedEndInList(rp, value, items[1..], print0);
      }
    }
  }

  /** At the end of a path without keys a value is looked for in the leaf there. */
  lemma {:induction false} PlainEnd(e: Entry, d: Json, rp: seq<PathElem>, value: string, print0: real -> string)
    requires GoodObj(e, d, print0) && rp != [] && FullyKeyed(e, rp) && value != "" && rp[|rp| - 1].key == map[]
    ensures IsPathPresent(rp, value, d, print0) <==> Has(e, d, rp, Str(value), print0)
    decreases |rp|
  {
    var k, rest := rp[0].name, rp[1..];
    if |rp| > 1 { assert rest[|rest| - 1] == rp[|rp| - 1]; }
    if k in d.fields {
      var c, y := Child(e, k), d.fields[k];
      assert GoodField(c, y, print0);
      SomeKey(c);
      if rp[0].key == map[] {
        if rest != [] && y.Obj? { PlainEnd(c, y, rest, value, print0); }
      } else {
        PlainEndKeyed(e, d, rp, value, print0);
      }
    }
  }

  lemma {:induction false} PlainEndKeyed(e: Entry, d: Json, rp: seq<PathElem>, value: string, print0: real -> string)
    requires GoodObj(e, d, print0) && |rp| > 1 && FullyKeyed(e, rp) && value != "" && rp[|rp| - 1].key == map[]
    requires rp[0].key != map[] && rp[0].name in d.fields
    requires GoodField(Child(e, rp[0].name), d.fields[rp[0].name], print0)
    ensures IsPathPresent(rp, value, d, print0) <==> Has(e, d, rp, Str(value), print0)
    decreases |rp|, 0
  {
    var rest := rp[1..];
    assert rest[|rest| - 1] == rp[|rp| - 1];
    var c, y := Child(e, rp[0].name), d.fields[rp[0].name];
    if y.Arr? && !IsLeaf(y) {
      assert GoodEntries(c, y.items, print0);
      EntryDecides(c, rp, value, y.items, print0);
      forall i | EntryShows(c, y.items, rp[0].key, i, print0)
        ensures IsPathPresent(rest, value, y.items[i], print0) <==> Has(c, y.items[i], rest, Str(value), print0)
      {
        PlainEnd(c, y.items[i], rest, value, print0);
      }
    } else if y.Arr? {
      NoEntries(rp, value, y.items, print0);
      NoneInLeaves(e, d, rp, value, print0);
    }
  }

  /** No path goes on below a list of leaves. */
  lemma NoneInLeaves(e: Entry, d: Json, rp: seq<PathElem>, value: string, print0: real -> string)
    requires d.Obj? && rp != [] && rp[0].name in d.fields && IsLeaf(d.fields[rp[0].name]) && rp[0].key != map[]
    ensures !Has(e, d, rp, Str(value), print0)
  {
    if Has(e, d, rp, Str(value), print0) { HasField(e, d, rp, Str(value), print0); }
  }

  /** The check with a value: at the end of a path with keys it is the check without one; otherwise
      some leaf update of the document has this path and this text as its value. */
  lemma {:induction false} PresentWithValue(e: Entry, d: Json, rp: seq<PathElem>, value: string, print0: real -> string)
    requires GoodObj(e, d, print0) && rp != [] && FullyKeyed(e, rp) && value != ""
    ensures IsPathPresent(rp, value, d, print0) <==>
              if rp[|rp| - 1].key != map[] then LeafAtOrBelow(e, d, rp, print0) else Has(e, d, rp, Str(value), print0)
  {
    if rp[|rp| - 1].key != map[] {
      KeyedEnd(rp, value, d, print0);
      PresentIsPrefix(e, d, rp, print0);
    } else {
      PlainEnd(e, d, rp, value, print0);
    }
  }

  // ---------------------------------------------------------------- string keys

  /** With strings in the key leaves, an entry shows exactly the key it has. */
  lemma ShowsOwnKey(c: Entry, items: seq<Json>, key: map<string, string>, i: int, print0: real -> string)
    requires 0 <= i < |items| && HasKeys(c.keys, items[i])
    ensures EntryShows(c, items, key, i, print0) <==> EntryKey(c, items, key, i)
  {
    var x := items[i];
    if EntryShows(c, items, key, i, print0) {
      forall k | k in key ensures k in KeyOf(c.keys, x) && KeyOf(c.keys, x)[k] == key[k] {}
      assert KeyOf(c.keys, x).Keys == key.Keys;
      assert KeyOf(c.keys, x) == key;
    }
    if EntryKey(c, items, key, i) {
      forall k | k in key ensures Shows(x.fields[k], key[k], print0) {
        assert KeyOf(c.keys, x)[k] == x.fields[k].s;
      }
    }
  }

  /** A valid document is good, with the same leaves. */
  lemma {:induction false} ValidIsGood(e: Entry, d: Json, print0: real -> string)
    requires ValidObj(e, d)
    ensures GoodObj(e, d, print0)
    decreases d, 1
  {
    forall k | k in d.fields ensures GoodField(Child(e, k), d.fields[k], print0) {
      var c, y := Child(e, k), d.fields[k];
      assert ValidField(c, y);
      if y.Obj? {
        ValidIsGood(c, y, print0);
      } else if y.Arr? && !IsLeaf(y) {
        ValidEntriesGood(c, y.items, print0);
      }
    }
  }

  lemma {:induction false} ValidEntriesGood(c: Entry, items: seq<Json>, print0: real -> string)
    requires ValidEntries(c, items)
    ensures GoodEntries(c, items, print0)
    decreases items
  {
    forall i | 0 <= i < |items| ensures GoodObj(c, items[i], print0) && HasShownKey(c, items, i, print0) {
      ValidIsGood(c, items[i], print0);
      ShowsOwnKey(c, items, KeyOf(c.keys, items[i]), i, print0);
      assert EntryShows(c, items, KeyOf(c.keys, items[i]), i, print0);
    }
    forall i, j, key | EntryShows(c, items, key, i, print0) && EntryShows(c, items, key, j, print0) ensures i == j {
      ShowsOwnKey(c, items, key, i, print0);
      ShowsOwnKey(c, items, key, j, print0);
    }
  }

  lemma {:induction false} SameLeaves(e: Entry, d: Json, q: seq<PathElem>, v: Json, print0: real -> string)
    requires ValidObj(e, d)
    ensures Has(e, d, q, v, print0) <==> In(e, d, q, v)
    decreases |q|
  {
    if q != [] && q[0].name in d.fields {
      var c, y := Child(e, q[0].name), d.fields[q[0].name];
      assert ValidField(c, y);
      if q[0].key == map[] {
        if |q| > 1 && y.Obj? { SameLeaves(c, y, q[1..], v, print0); }
      } else if y.Arr? && !IsLeaf(y) {
        assert ValidEntries(c, y.items);
        forall i | 0 <= i < |y.items| ensures
          (EntryShows(c, y.items, q[0].key, i, print0) <==> EntryKey(c, y.items, q[0].key, i)) &&
          (Has(c, y.items[i], q[1..], v, print0) <==> In(c, y.items[i], q[1..], v))
        {
          ShowsOwnKey(c, y.items, q[0].key, i, print0);
          SameLeaves(c, y.items[i], q[1..], v, print0);
        }
      }
    }
  }

  /** The check agrees with the explosion of a valid document: with no value, or keys at the end, the
      path is a beginning of the path of some leaf update; with a value it is that of one with this
      text. */
  lemma PresentIsExploded(e: Entry, d: Json, rp: seq<PathElem>, value: string, print0: real -> string)
    requires ValidObj(e, d) && rp != [] && FullyKeyed(e, rp)
    ensures IsPathPresent(rp, value, d, print0) <==>
              if value == "" || rp[|rp| - 1].key != map[] then exists q, v :: In(e, d, q, v) && rp <= q
              else In(e, d, rp, Str(value))
  {
    ValidIsGood(e, d, print0);
    forall q, v ensures Has(e, d, q, v, print0) <==> In(e, d, q, v) { SameLeaves(e, d, q, v, print0); }
    hide Has, In, GoodObj, ValidObj, FullyKeyed, IsPathPresent;
    if LeafAtOrBelow(e, d, rp, print0) {
      var q: seq<PathElem>, v: Json :| Has(e, d, q, v, print0) && rp <= q;
      assert In(e, d, q, v);
    }
    if q: seq<PathElem>, v: Json :| In(e, d, q, v) && rp <= q { assert Has(e, d, q, v, print0); }
    if value == "" { PresentIsPrefix(e, d, rp, print0); } else { PresentWithValue(e, d, rp, value, print0); }
  }
}
