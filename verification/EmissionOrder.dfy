/** The order in which an explosion emits its updates: an entry of a list is begun only after the
    entry before it. */
module EmissionOrder {
  import opened Gnmi
  import opened Documents

  function Elems(us: seq<Leaf>): set<Leaf> {
    set u | u in us
  }

  /** What has been seen below a path element. */
  function Under(seen: set<Leaf>, a: PathElem): set<Leaf> {
    set u | u in seen && u.0 != [] && u.0[0] == a :: (u.0[1..], u.1)
  }

  predicate Touches(seen: set<Leaf>, a: PathElem) {
    exists u :: u in seen && u.0 != [] && u.0[0] == a
  }

  /** Every list entry on the way of `q` is the first of its list, or something was seen in the
      entry before it. */
  ghost predicate Preceded(e: Entry, d: Json, seen: set<Leaf>, q: seq<PathElem>)
    decreases q, 1
  {
    |q| > 1 && d.Obj? && q[0].name in d.fields ==>
      var c, y := Child(e, q[0].name), d.fields[q[0].name];
      if q[0].key == map[] then Preceded(c, y, Under(seen, q[0]), q[1..])
      else y.Arr? ==> PrecededInList(c, y.items, seen, q)
  }

  ghost predicate PrecededInList(c: Entry, items: seq<Json>, seen: set<Leaf>, q: seq<PathElem>)
    requires q != []
    decreases q, 0
  {
    forall j | EntryKey(c, items, q[0].key, j) ::
      && (j > 0 ==> Touches(seen, PathElem(q[0].name, KeyOf(c.keys, items[j - 1]))))
      && Preceded(c, items[j], Under(seen, q[0]), q[1..])
  }

  ghost predicate Ordered(e: Entry, d: Json, us: seq<Leaf>) {
    forall n | 0 <= n < |us| :: Preceded(e, d, Elems(us[..n]), us[n].0)
  }

  /** A sequence in which a document's leaves may be emitted. */
  ghost predicate Emission(e: Entry, d: Json, us: seq<Leaf>) {
    LeavesOf(e, d, us) && Ordered(e, d, us)
  }

  ghost predicate ListOrdered(c: Entry, items: seq<Json>, us: seq<Leaf>) {
    forall n | 0 <= n < |us| :: us[n].0 != [] && PrecededInList(c, items, Elems(us[..n]), us[n].0)
  }

  lemma {:induction false} SeeingMore(e: Entry, d: Json, seen: set<Leaf>, more: set<Leaf>, q: seq<PathElem>)
    requires Preceded(e, d, seen, q) && seen <= more
    ensures Preceded(e, d, more, q)
    decreases q, 1
  {
    if |q| > 1 && d.Obj? && q[0].name in d.fields {
      var c, y := Child(e, q[0].name), d.fields[q[0].name];
      if q[0].key == map[] {
        UnderMore(seen, more, q[0]);
        SeeingMore(c, y, Under(seen, q[0]), Under(more, q[0]), q[1..]);
      } else if y.Arr? {
        SeeingMoreInList(c, y.items, seen, more, q);
      }
    }
  }

  lemma UnderMore(seen: set<Leaf>, more: set<Leaf>, a: PathElem)
    requires seen <= more
    ensures Under(seen, a) <= Under(more, a)
  {
  }

  lemma {:induction false} SeeingMoreInList(c: Entry, items: seq<Json>, seen: set<Leaf>, more: set<Leaf>,
      q: seq<PathElem>)
    requires q != [] && PrecededInList(c, items, seen, q) && seen <= more
    ensures PrecededInList(c, items, more, q)
    decreases q, 0
  {
    UnderMore(seen, more, q[0]);
    forall j | EntryKey(c, items, q[0].key, j)
      ensures j > 0 ==> Touches(more, PathElem(q[0].name, KeyOf(c.keys, items[j - 1])))
      ensures Preceded(c, items[j], Under(more, q[0]), q[1..])
    {
      SeeingMore(c, items[j], Under(seen, q[0]), Under(more, q[0]), q[1..]);
    }
  }

  /** Two ordered sequences of fields that do not interfere, one after the other. */
  lemma OrderedJoin(e: Entry, d: Json, us: seq<Leaf>, sub: seq<Leaf>)
    requires Ordered(e, d, us) && Ordered(e, d, sub)
    ensures Ordered(e, d, us + sub)
  {
    var all := us + sub;
    forall n | 0 <= n < |all| ensures Preceded(e, d, Elems(all[..n]), all[n].0) {
      if n < |us| {
        assert all[..n] == us[..n];
      } else {
        assert all[..n] == us + sub[..n - |us|];
        SeeingMore(e, d, Elems(sub[..n - |us|]), Elems(all[..n]), all[n].0);
      }
    }
  }

  lemma OrderedSingle(e: Entry, d: Json, u: Leaf)
    requires |u.0| <= 1
    ensures Ordered(e, d, [u])
  {
  }

  /** The updates with a path put in front. */
  function Prefix(p: seq<PathElem>, us: seq<Leaf>): seq<Leaf> {
    seq(|us|, i requires 0 <= i < |us| => (p + us[i].0, us[i].1))
  }

  lemma UnderPrefix(a: PathElem, us: seq<Leaf>, n: nat, before: seq<Leaf>)
    requires n <= |us|
    ensures Elems(us[..n]) <= Under(Elems(before + Prefix([a], us)[..n]), a)
  {
    var ps := Prefix([a], us);
    forall u | u in us[..n] ensures u in Under(Elems(before + ps[..n]), a) {
      var i :| 0 <= i < n && us[i] == u;
      var w := ps[..n][i];
      assert w == ([a] + u.0, u.1) && w.0[1..] == u.0;
      assert w in before + ps[..n];
    }
  }

  /** The updates of a container, under its name. */
  lemma OrderedContainer(e: Entry, d: Json, k: string, us: seq<Leaf>)
    requires d.Obj? && k in d.fields && Ordered(Child(e, k), d.fields[k], us)
    ensures Ordered(e, d, Prefix([PathElem(k, map[])], us))
  {
    var a := PathElem(k, map[]);
    var ps := Prefix([a], us);
    forall n | 0 <= n < |ps| ensures Preceded(e, d, Elems(ps[..n]), ps[n].0) {
      UnderPrefix(a, us, n, []);
      assert [] + ps[..n] == ps[..n];
      assert ps[n].0[1..] == us[n].0;
      SeeingMore(Child(e, k), d.fields[k], Elems(us[..n]), Under(Elems(ps[..n]), a), us[n].0);
    }
  }

  lemma OrderedList(e: Entry, d: Json, k: string, us: seq<Leaf>)
    requires d.Obj? && k in d.fields && d.fields[k].Arr? && ListOrdered(Child(e, k), d.fields[k].items, us)
    requires forall u | u in us :: |u.0| > 1 && u.0[0].name == k && u.0[0].key != map[]
    ensures Ordered(e, d, us)
  {
    forall n | 0 <= n < |us| ensures Preceded(e, d, Elems(us[..n]), us[n].0) {
      assert us[n] in us;
    }
  }

  /** The updates of one more entry, after an update of the entry before it. */
  lemma ListOrderedJoin(c: Entry, items: seq<Json>, k: string, n: nat, us: seq<Leaf>, sub: seq<Leaf>)
    requires n < |items| && DistinctKeys(c.keys, items) && HasKeys(c.keys, items[n])
    requires ListOrdered(c, items, us) && Ordered(c, items[n], sub)
    requires n > 0 ==> Touches(Elems(us), PathElem(k, KeyOf(c.keys, items[n - 1])))
    ensures ListOrdered(c, items, us + Prefix([PathElem(k, KeyOf(c.keys, items[n]))], sub))
  {
    var a := PathElem(k, KeyOf(c.keys, items[n]));
    var ps := Prefix([a], sub);
    var all := us + ps;
    forall m | 0 <= m < |all| ensures all[m].0 != [] && PrecededInList(c, items, Elems(all[..m]), all[m].0) {
      if m < |us| {
        assert all[..m] == us[..m];
      } else {
        var i := m - |us|;
        assert all[..m] == us + ps[..i];
        assert all[m].0[1..] == sub[i].0 && all[m].0[0] == a;
        UnderPrefix(a, sub, i, us);
        SeeingMore(c, items[n], Elems(sub[..i]), Under(Elems(all[..m]), a), sub[i].0);
        if n > 0 { TouchesMore(us, ps[..i], PathElem(k, KeyOf(c.keys, items[n - 1]))); }
        forall j | EntryKey(c, items, a.key, j) ensures j == n {}
      }
    }
  }

  lemma TouchesMore(us: seq<Leaf>, more: seq<Leaf>, a: PathElem)
    requires Touches(Elems(us), a)
    ensures Touches(Elems(us + more), a)
  {
    var u :| u in Elems(us) && u.0 != [] && u.0[0] == a;
    assert u in us + more;
  }
}
