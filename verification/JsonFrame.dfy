/** What an update or a delete of the JSON engine leaves as it is: everything on other paths. */
module JsonFrame {
  import opened Gnmi
  import opened JsonEngine
  import opened JsonLens
  import PathPresent

  predicate Clash(a: map<string, string>, b: map<string, string>) {
    exists k :: k in a && k in b && a[k] != b[k]
  }

  /** The paths part ways: at a name, or in a list at a key with different values. */
  ghost predicate Apart(p: seq<Step>, q: seq<Step>)
    decreases |p|
  {
    p != [] && q != [] &&
    (p[0].name != q[0].name || Clash(p[0].key, q[0].key)
     || (p[0].key == q[0].key && Apart(p[1..], q[1..])))
  }

  /** As far as the path exists in the tree, there are lists where the path has keys and maps
      everywhere else. */
  predicate Shaped(x: Json, path: seq<Step>, p0: Print)
    requires path != []
    decreases |path|
  {
    x.Obj? &&
    var s, rest, m := path[0], path[1..], x.fields;
    s.name in m ==>
      if s.key == map[] then rest == [] || Shaped(m[s.name], rest, p0)
      else m[s.name].Arr? &&
           var items := m[s.name].items;
           var n := FirstEntry(items, s.key, p0);
           n < |items| && rest != [] ==> Shaped(items[n], rest, p0)
  }

  lemma ClashingEntries(x: Json, a: map<string, string>, b: map<string, string>, p0: Print)
    requires Clash(a, b) && IsEntry(x, a, p0)
    ensures !IsEntry(x, b, p0)
  {
    var k :| k in a && k in b && a[k] != b[k];
    assert PathPresent.KeyMatches(x.fields[k], a[k], p0);
  }

  /** Changing, adding or removing what is no entry of a key keeps the first entry of the key. */
  lemma FirstOther(items: seq<Json>, key: map<string, string>, p0: Print, n: nat, e: Json)
    requires n <= |items| && !IsEntry(e, key, p0) && (n < |items| ==> !IsEntry(items[n], key, p0))
    ensures var f := FirstEntry(items, key, p0);
            var l := if n < |items| then items[n := e] else items + [e];
            var g := FirstEntry(l, key, p0);
            && f <= |items| && g <= |l| && (g < |l| <==> f < |items|)
            && (f < |items| ==> l[g] == items[f])
  {
    var f := FirstEntry(items, key, p0);
    FirstMeaning(items, key, p0);
    var l := if n < |items| then items[n := e] else items + [e];
    FirstIs(l, key, p0, if f < |items| then f else |l|);
  }

  lemma FirstWithout(items: seq<Json>, key: map<string, string>, p0: Print, n: nat)
    requires n < |items| && !IsEntry(items[n], key, p0)
    ensures var f := FirstEntry(items, key, p0);
            var l := items[..n] + items[n + 1..];
            var g := FirstEntry(l, key, p0);
            && f <= |items| && g <= |l| && (g < |l| <==> f < |items|)
            && (f < |items| ==> l[g] == items[f])
  {
    var f := FirstEntry(items, key, p0);
    FirstMeaning(items, key, p0);
    var l := items[..n] + items[n + 1..];
    FirstIs(l, key, p0, if f == |items| then |l| else if f < n then f else f - 1);
  }

  lemma RestApart(p: seq<Step>, q: seq<Step>)
    requires Apart(p, q) && p[0].name == q[0].name && !Clash(p[0].key, q[0].key)
    ensures p[0].key == q[0].key && p[1..] != [] && q[1..] != [] && Apart(p[1..], q[1..])
  {
  }

  /** An update leaves everything on a path apart from its own as it is. */
  lemma {:induction false} UpdateKeepsOthers(x: Json, p: seq<Step>, q: seq<Step>, tx: Json, p0: Print)
    requires p != [] && Ready(x, p, tx, p0) && CleanKeys(p) && KeyLeafKept(p, tx, p0) && Apart(p, q)
    ensures View(Put(x, p, tx, p0), q, p0) == View(x, q, p0)
    decreases |p|, 1
  {
    hide Put, View, Stored, Clash, CleanKeys, KeyLeafKept;
    var s, rest, m := p[0], p[1..], x.fields;
    RestClean(p);
    RestKept(p, tx, p0);
    PutMap(m, p, tx, p0);
    ViewMap(m, q, p0);
    ViewMap(Put(x, p, tx, p0).fields, q, p0);
    if s.name == q[0].name {
      if s.key != map[] && q[0].key != map[] {
        var items := if s.name in m then m[s.name].items else [];
        if s.name in m {
          UpdateKeepsOtherEntries(items, p, q, tx, p0);
        } else {
          NewListIsStored(tx, s);
          StoredIsEntry(tx, s, p0);
          if !Clash(s.key, q[0].key) { RestApart(p, q); }
          ClashingEntries(Stored(tx, s), s.key, q[0].key, p0);
          FirstOther([], q[0].key, p0, 0, Stored(tx, s));
          assert [] + [Stored(tx, s)] == [Stored(tx, s)];
          ViewList([Stored(tx, s)], q, p0);
        }
      } else {
        NoClash(s.key, q[0].key);
        RestApart(p, q);
        UpdateKeepsOthers(Below(m, s.name), rest, q[1..], tx, p0);
        ViewMap(map[], q[1..], p0);
      }
    }
  }

  lemma NoClash(a: map<string, string>, b: map<string, string>)
    requires a == map[] || b == map[]
    ensures !Clash(a, b)
  {
  }

  lemma {:induction false} UpdateKeepsOtherEntries(items: seq<Json>, p: seq<Step>, q: seq<Step>, tx: Json, p0: Print)
    requires p != [] && p[0].key != map[] && ReadyList(items, p, tx, p0) && CleanKeys(p) && KeyLeafKept(p, tx, p0)
    requires Apart(p, q) && p[0].name == q[0].name && q[0].key != map[]
    ensures View(Put(Arr(items), p, tx, p0), q, p0) == View(Arr(items), q, p0)
    decreases |p|, 0
  {
    hide Put, View, Stored, Clash, CleanKeys;
    var s, rest := p[0], p[1..];
    var n := FirstEntry(items, s.key, p0);
    var e := EntryPut(items, p, tx, p0);
    RestClean(p);
    RestKept(p, tx, p0);
    PutList(items, p, tx, p0);
    EntryPutIsEntry(items, p, tx, p0);
    ViewList(items, q, p0);
    ViewList(Put(Arr(items), p, tx, p0).items, q, p0);
    if Clash(s.key, q[0].key) {
      FirstMeaning(items, s.key, p0);
      ClashingEntries(e, s.key, q[0].key, p0);
      if n < |items| { ClashingEntries(items[n], s.key, q[0].key, p0); }
      FirstOther(items, q[0].key, p0, n, e);
    } else {
      RestApart(p, q);
      FirstAfter(items, s.key, p0, n, e);
      UpdateKeepsOthers(items[n], rest, q[1..], tx, p0);
    }
  }

  /** The path exists and ends in a key leaf of the entry it goes through. */
  predicate DropsKeyLeaf(x: Json, path: seq<Step>, p0: Print) {
    EndsInKeyLeaf(path) && View(x, path, p0).Some?
  }

  /** Below an entry, a path can only be at a key leaf if it ends there. */
  lemma ShapedKeyName(x: Json, key: map<string, string>, path: seq<Step>, p0: Print)
    requires path != [] && Shaped(x, path, p0) && IsEntry(x, key, p0) && path[0].name in key
    ensures |path| == 1 && path[0].key == map[] && View(x, path, p0).Some?
  {
    assert PathPresent.KeyMatches(x.fields[path[0].name], key[path[0].name], p0);
    ViewMap(x.fields, path, p0);
  }

  /** So does a delete that does not take a key leaf. */
  lemma {:induction false} DeleteKeepsOthers(x: Json, p: seq<Step>, q: seq<Step>, p0: Print)
    requires p != [] && Shaped(x, p, p0) && !DropsKeyLeaf(x, p, p0) && Apart(p, q)
    ensures View(Del(x, p, p0), q, p0) == View(x, q, p0)
    decreases |p|, 1
  {
    hide Del, View, Clash;
    var s, rest, m := p[0], p[1..], x.fields;
    RestKept(p, Null, p0);
    DelMap(m, p, p0);
    ViewMap(m, p, p0);
    ViewMap(m, q, p0);
    ViewMap(Del(x, p, p0).fields, q, p0);
    if s.name == q[0].name && s.name in m {
      if s.key != map[] && q[0].key != map[] {
        DeleteKeepsOtherEntries(m[s.name].items, p, q, p0);
        ViewList([], q, p0);
      } else {
        NoClash(s.key, q[0].key);
        RestApart(p, q);
        DeleteKeepsOthers(m[s.name], rest, q[1..], p0);
      }
    }
  }

  lemma {:induction false} DeleteKeepsOtherEntries(items: seq<Json>, p: seq<Step>, q: seq<Step>, p0: Print)
    requires p != [] && p[0].key != map[] && !DropsKeyLeaf(Arr(items), p, p0)
    requires var n := FirstEntry(items, p[0].key, p0);
             n < |items| && p[1..] != [] ==> Shaped(items[n], p[1..], p0)
    requires Apart(p, q) && p[0].name == q[0].name && q[0].key != map[]
    ensures View(Del(Arr(items), p, p0), q, p0) == View(Arr(items), q, p0)
    decreases |p|, 0
  {
    hide Del, View, Clash;
    var s, rest := p[0], p[1..];
    var n := FirstEntry(items, s.key, p0);
    RestKept(p, Null, p0);
    FirstMeaning(items, s.key, p0);
    DelList(items, p, p0);
    ViewList(items, p, p0);
    ViewList(items, q, p0);
    ViewList(Del(Arr(items), p, p0).items, q, p0);
    if n < |items| {
      if rest != [] {
        if p[1].name in s.key { ShapedKeyName(items[n], s.key, rest, p0); }
        DelBelowStaysEntry(items[n], s.key, rest, p0);
      }
      if Clash(s.key, q[0].key) {
        ClashingEntries(items[n], s.key, q[0].key, p0);
        if rest == [] {
          FirstWithout(items, q[0].key, p0, n);
        } else {
          ClashingEntries(Del(items[n], rest, p0), s.key, q[0].key, p0);
          FirstOther(items, q[0].key, p0, n, Del(items[n], rest, p0));
        }
      } else {
        RestApart(p, q);
        FirstAfter(items, s.key, p0, n, Del(items[n], rest, p0));
        DeleteKeepsOthers(items[n], rest, q[1..], p0);
      }
    }
  }

  // ---------------------------------------------------------------- when the others are not kept

  /** The paths differ in the name of their last elements only. */
  ghost predicate Beside(p: seq<Step>, q: seq<Step>) {
    && p != [] && |q| == |p| && p[..|p| - 1] == q[..|p| - 1]
    && p[|p| - 1].name != q[|p| - 1].name
  }

  lemma RestBeside(p: seq<Step>, q: seq<Step>)
    requires Beside(p, q) && |p| > 1
    ensures Beside(p[1..], q[1..]) && p[0] == q[0]
  {
    var a, b := p[1..], q[1..];
    assert p[0] == p[..|p| - 1][0] && q[0] == q[..|p| - 1][0];
    assert a[..|a| - 1] == p[..|p| - 1][1..] && b[..|b| - 1] == q[..|p| - 1][1..];
  }

  lemma {:induction false} BesideIsApart(p: seq<Step>, q: seq<Step>)
    requires Beside(p, q)
    ensures Apart(p, q)
    decreases |p|
  {
    if |p| > 1 {
      RestBeside(p, q);
      BesideIsApart(p[1..], q[1..]);
    }
  }

  /** With another value in a key leaf the entry cannot be found any more, unless there are several. */
  lemma {:induction false} RenameHides(x: Json, p: seq<Step>, q: seq<Step>, tx: Json, p0: Print)
    requires p != [] && Ready(x, p, tx, p0) && CleanKeys(p) && !KeyLeafKept(p, tx, p0)
    requires Beside(p, q) && Alone(x, p, p0)
    ensures View(Put(x, p, tx, p0), q, p0) == None
    decreases |p|, 1
  {
    hide Put, View, Stored, CleanKeys, KeyLeafKept;
    var s, rest, m := p[0], p[1..], x.fields;
    RestClean(p);
    RestKept(p, tx, p0);
    if |p| == 1 { ShortIsKept(p, tx, p0); }
    RestBeside(p, q);
    PutMap(m, p, tx, p0);
    ViewMap(Put(x, p, tx, p0).fields, q, p0);
    if s.key == map[] {
      RenameHides(Below(m, s.name), rest, q[1..], tx, p0);
    } else {
      RenameHidesInList(m[s.name].items, p, q, tx, p0);
    }
  }

  lemma {:induction false} RenameHidesInList(items: seq<Json>, p: seq<Step>, q: seq<Step>, tx: Json, p0: Print)
    requires |p| > 1 && p[0].key != map[] && ReadyList(items, p, tx, p0) && CleanKeys(p) && !KeyLeafKept(p, tx, p0)
    requires Beside(p, q) && Alone(Arr(items), p, p0)
    ensures View(Put(Arr(items), p, tx, p0), q, p0) == None
    decreases |p|, 0
  {
    var s, rest := p[0], p[1..];
    var n, e := FirstEntry(items, s.key, p0), EntryPut(items, p, tx, p0);
    if |p| == 2 && p[1].name in s.key {
      FirstMeaning(items, s.key, p0);
      ReadyKeyName(items[n], s.key, rest, tx, p0);
    }
    hide Put, View, Stored, CleanKeys, KeyLeafKept, IsEntry;
    RestClean(p);
    RestKept(p, tx, p0);
    RestBeside(p, q);
    PutList(items, p, tx, p0);
    EntryPutIsEntry(items, p, tx, p0);
    var l := Put(Arr(items), p, tx, p0).items;
    ViewList(l, q, p0);
    if |p| == 2 {
      EndsHere(p, tx, p0);
      OnlyOneGone(items, s.key, p0, n, e);
    } else {
      FirstAfter(items, s.key, p0, n, e);
      RenameHides(items[n], rest, q[1..], tx, p0);
    }
  }

  lemma EndsHere(p: seq<Step>, tx: Json, p0: Print)
    requires |p| == 2 && !KeyLeafKept(p, tx, p0)
    ensures p[1].name in p[0].key
  {
  }

  lemma OnlyOneGone(items: seq<Json>, key: map<string, string>, p0: Print, n: nat, e: Json)
    requires n < |items| && n == FirstEntry(items, key, p0) && AtMostOne(items, key, p0) && !IsEntry(e, key, p0)
    ensures FirstEntry(items[n := e], key, p0) == |items|
  {
    hide IsEntry;
    FirstMeaning(items, key, p0);
    FirstIs(items[n := e], key, p0, |items|);
  }

  /** Where an entry has no other of its key and another leaf beside the one that is updated, the
      update keeps everything on other paths exactly when it keeps the key leaves. */
  lemma {:induction false} UpdateKeepsOthersExactly(x: Json, p: seq<Step>, beside: seq<Step>, tx: Json, p0: Print)
    requires p != [] && Ready(x, p, tx, p0) && CleanKeys(p) && Alone(x, p, p0)
    requires Beside(p, beside) && View(x, beside, p0).Some?
    ensures (forall q | Apart(p, q) :: View(Put(x, p, tx, p0), q, p0) == View(x, q, p0)) <==> KeyLeafKept(p, tx, p0)
  {
    hide Put, View, Ready, CleanKeys, KeyLeafKept, Alone;
    if KeyLeafKept(p, tx, p0) {
      forall q | Apart(p, q) ensures View(Put(x, p, tx, p0), q, p0) == View(x, q, p0) {
        UpdateKeepsOthers(x, p, q, tx, p0);
      }
    } else {
      RenameHides(x, p, beside, tx, p0);
      BesideIsApart(p, beside);
    }
  }

  /** Without a key leaf the entry cannot be found any more, unless there are several. */
  lemma {:induction false} DropHides(x: Json, p: seq<Step>, q: seq<Step>, p0: Print)
    requires p != [] && Shaped(x, p, p0) && DropsKeyLeaf(x, p, p0) && Beside(p, q) && Alone(x, p, p0)
    ensures View(Del(x, p, p0), q, p0) == None
    decreases |p|, 1
  {
    hide Del, View;
    var s, rest, m := p[0], p[1..], x.fields;
    RestKept(p, Null, p0);
    RestBeside(p, q);
    DelMap(m, p, p0);
    ViewMap(m, p, p0);
    ViewMap(Del(x, p, p0).fields, q, p0);
    if s.key == map[] {
      DropHides(m[s.name], rest, q[1..], p0);
    } else {
      DropHidesInList(m[s.name].items, p, q, p0);
    }
  }

  lemma {:induction false} DropHidesInList(items: seq<Json>, p: seq<Step>, q: seq<Step>, p0: Print)
    requires |p| > 1 && p[0].key != map[] && DropsKeyLeaf(Arr(items), p, p0)
    requires var n := FirstEntry(items, p[0].key, p0); n < |items| ==> Shaped(items[n], p[1..], p0)
    requires Beside(p, q) && Alone(Arr(items), p, p0)
    ensures View(Del(Arr(items), p, p0), q, p0) == None
    decreases |p|, 0
  {
    var s, rest := p[0], p[1..];
    var n := FirstEntry(items, s.key, p0);
    FirstMeaning(items, s.key, p0);
    ViewList(items, p, p0);
    RestKept(p, Null, p0);
    if p[1].name in s.key { ShapedKeyName(items[n], s.key, rest, p0); }
    hide Del, View, IsEntry;
    RestBeside(p, q);
    DelList(items, p, p0);
    ViewList(Del(Arr(items), p, p0).items, q, p0);
    var e := Del(items[n], rest, p0);
    DelBelowStaysEntry(items[n], s.key, rest, p0);
    if |p| == 2 {
      OnlyOneGone(items, s.key, p0, n, e);
    } else {
      FirstAfter(items, s.key, p0, n, e);
      DropHides(items[n], rest, q[1..], p0);
    }
  }

  /** The same for a delete. */
  lemma {:induction false} DeleteKeepsOthersExactly(x: Json, p: seq<Step>, beside: seq<Step>, p0: Print)
    requires p != [] && Shaped(x, p, p0) && Alone(x, p, p0)
    requires Beside(p, beside) && View(x, beside, p0).Some?
    ensures (forall q | Apart(p, q) :: View(Del(x, p, p0), q, p0) == View(x, q, p0)) <==> !DropsKeyLeaf(x, p, p0)
  {
    hide Del, View, Shaped, Alone, DropsKeyLeaf;
    if !DropsKeyLeaf(x, p, p0) {
      forall q | Apart(p, q) ensures View(Del(x, p, p0), q, p0) == View(x, q, p0) {
        DeleteKeepsOthers(x, p, q, p0);
      }
    } else {
      DropHides(x, p, beside, p0);
      BesideIsApart(p, beside);
    }
  }
}
