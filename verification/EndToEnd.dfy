/** From updates that arrive in any order, through the cache, to the document that is read back. */
module EndToEnd {
  import opened Gnmi
  import opened PathTree
  import opened Visits
  import opened TargetSpec
  import opened TargetRuns
  import opened LastWriter
  import opened Documents
  import Globs
  import Rebuild
  import RoundTrip

  /** What GetJson folds: the leaf of each visited notification, its path without the first
      elements, which are those of the requested path. */
  function Relative(n: nat, v: Value): Documents.Leaf
    requires |v.updates| > 0
  {
    var u := v.updates[0];
    (if n <= |u.path| then u.path[n..] else [], GetValue(u.val))
  }

  function Read(n: nat, out: seq<Visit>): (us: seq<Documents.Leaf>)
    requires forall x | x in out :: |x.1.updates| > 0
    ensures |us| == |out| && forall i | 0 <= i < |out| :: us[i] == Relative(n, out[i].1)
  {
    if out == [] then []
    else
      assert out[0] in out && forall x | x in out[1..] :: x in out;
      [Relative(n, out[0].1)] + Read(n, out[1..])
  }

  /** Different paths are stored at different places. */
  ghost predicate Injective(lib: Lib, ns: seq<Notification>)
    requires forall n | n in ns :: |n.updates| > 0
  {
    forall a, b | a in ns && b in ns && JoinUpdate(lib, a) == JoinUpdate(lib, b)
        :: a.updates[0].path == b.updates[0].path
  }

  /** The newest updates of the paths a query asks for are the leaves of the document at `p`. */
  ghost predicate Delivers(lib: Lib, ns: seq<Notification>, glob: Path, p: seq<PathElem>, e: Entry, d: Json)
    requires forall n | n in ns :: |n.updates| > 0
  {
    && (forall n | Newest(lib, ns, n) && Globs.QueryMatch(glob, JoinUpdate(lib, n)) ::
          p <= n.updates[0].path && In(e, d, n.updates[0].path[|p|..], GetValue(n.updates[0].val)))
    && (forall q, v | In(e, d, q, v) :: Sent(lib, ns, glob, p + q))
  }

  /** There was some update of the path, possibly an outdated one, and the query asks for it. */
  ghost predicate Sent(lib: Lib, ns: seq<Notification>, glob: Path, path: seq<PathElem>)
    requires forall n | n in ns :: |n.updates| > 0
  {
    exists n :: n in ns && n.updates[0].path == path && Globs.QueryMatch(glob, JoinUpdate(lib, n))
  }

  lemma OneEntry(c: Entry, items: seq<Json>, key: map<string, string>, i: int, j: int)
    requires DistinctKeys(c.keys, items) && EntryKey(c, items, key, i) && EntryKey(c, items, key, j)
    ensures i == j
  {
  }

  /** A valid document has one value at a path. */
  lemma {:induction false} OneValue(e: Entry, d: Json, q: seq<PathElem>, v: Json, w: Json)
    requires ValidObj(e, d) && In(e, d, q, v) && In(e, d, q, w)
    ensures v == w
    decreases q
  {
    hide KeyOf, HasKeys;
    InField(e, d, q, v);
    InField(e, d, q, w);
    hide In;
    var c, y := Child(e, q[0].name), d.fields[q[0].name];
    assert ValidField(c, y);
    if y.Obj? {
      OneValue(c, y, q[1..], v, w);
    } else if y.Arr? && !IsLeaf(y) {
      assert ValidEntries(c, y.items);
      var i :| EntryKey(c, y.items, q[0].key, i) && In(c, y.items[i], q[1..], v);
      var j :| EntryKey(c, y.items, q[0].key, j) && In(c, y.items[j], q[1..], w);
      OneEntry(c, y.items, q[0].key, i, j);
      OneValue(c, y.items[i], q[1..], v, w);
    }
  }

  lemma VisitsHaveUpdates(lib: Lib, ns: seq<Notification>, m: map<Path, Value>, out: seq<Visit>)
    requires (forall n | n in ns :: |n.updates| > 0) && MapOfNewest(lib, ns, m)
    requires forall i | 0 <= i < |out| :: out[i].0 in m && out[i].1 == m[out[i].0]
    ensures forall x | x in out :: x.1 in ns && |x.1.updates| > 0
  {
    forall x | x in out ensures x.1 in ns {
      var i :| 0 <= i < |out| && out[i] == x;
      assert Newest(lib, ns, m[out[i].0]);
    }
  }

  /** The visits are the entries of the map that match. */
  ghost predicate ReadsMap(m: map<Path, Value>, glob: Path, out: seq<Visit>) {
    && (forall i | 0 <= i < |out| :: out[i].0 in m && out[i].1 == m[out[i].0])
    && (forall x :: Reports(out, x) <==> x in m && Globs.QueryMatch(glob, x))
  }

  lemma ReadIsLeaf(lib: Lib, ns: seq<Notification>, m: map<Path, Value>, glob: Path, out: seq<Visit>,
                   p: seq<PathElem>, e: Entry, d: Json, i: nat)
    requires (forall n | n in ns :: |n.updates| > 0) && MapOfNewest(lib, ns, m) && ReadsMap(m, glob, out)
    requires Delivers(lib, ns, glob, p, e, d) && i < |out| && |out[i].1.updates| > 0
    ensures var u := Relative(|p|, out[i].1); In(e, d, u.0, u.1)
  {
    hide JoinUpdate, In, Globs.QueryMatch;
    var w := out[i].1;
    assert Reports(out, out[i].0);
    assert Newest(lib, ns, w) && JoinUpdate(lib, w) == out[i].0;
  }

  lemma LeafIsRead(lib: Lib, ns: seq<Notification>, m: map<Path, Value>, glob: Path, out: seq<Visit>,
                   p: seq<PathElem>, e: Entry, d: Json, q: seq<PathElem>, v: Json) returns (i: nat)
    requires (forall n | n in ns :: |n.updates| > 0) && MapOfNewest(lib, ns, m) && ReadsMap(m, glob, out)
    requires Injective(lib, ns) && ValidObj(e, d) && Delivers(lib, ns, glob, p, e, d) && In(e, d, q, v)
    ensures i < |out| && |out[i].1.updates| > 0 && Relative(|p|, out[i].1) == (q, v)
  {
    hide JoinUpdate, ValidObj, In, Globs.QueryMatch;
    assert Sent(lib, ns, glob, p + q);
    var n :| n in ns && n.updates[0].path == p + q && Globs.QueryMatch(glob, JoinUpdate(lib, n));
    var x := JoinUpdate(lib, n);
    assert Reports(out, x);
    i :| 0 <= i < |out| && out[i].0 == x;
    var w := out[i].1;
    assert Newest(lib, ns, w) && JoinUpdate(lib, w) == x;
    assert w.updates[0].path == p + q && (p + q)[|p|..] == q;
    OneValue(e, d, q, v, GetValue(w.updates[0].val));
  }

  /** What is read are exactly the leaves of the document. */
  lemma ReadsLeaves(lib: Lib, ns: seq<Notification>, m: map<Path, Value>, glob: Path, out: seq<Visit>,
                    p: seq<PathElem>, e: Entry, d: Json)
    requires (forall n | n in ns :: |n.updates| > 0) && MapOfNewest(lib, ns, m) && Injective(lib, ns)
    requires (forall x | x in out :: |x.1.updates| > 0) && ReadsMap(m, glob, out)
    requires ValidObj(e, d) && Delivers(lib, ns, glob, p, e, d)
    ensures LeavesOf(e, d, Read(|p|, out))
  {
    hide JoinUpdate, ValidObj, In, MapOfNewest, Injective, Delivers, ReadsMap, Relative;
    var us := Read(|p|, out);
    forall q, v ensures (q, v) in us <==> In(e, d, q, v) {
      if (q, v) in us {
        var i :| 0 <= i < |out| && us[i] == (q, v);
        assert out[i] in out;
        ReadIsLeaf(lib, ns, m, glob, out, p, e, d, i);
      }
      if In(e, d, q, v) {
        var i := LeafIsRead(lib, ns, m, glob, out, p, e, d, q, v);
        assert us[i] == (q, v);
      }
    }
  }

  /** A query on the cache reads newest updates. */
  lemma QueryReadsNewest(lib: Lib, ns: seq<Notification>, glob: Path, f: Visit -> bool, out: seq<Visit>)
    returns (m: map<Path, Value>)
    requires PlainRun(lib, ns) && Traversal(RunAll(lib, ns).tree, glob, [], f, out, false)
    ensures forall n | n in ns :: |n.updates| > 0
    ensures forall x | x in out :: |x.1.updates| > 0
    ensures MapOfNewest(lib, ns, m) && ReadsMap(m, glob, out)
  {
    assert forall n | n in ns :: |n.updates| > 0 && NotiOk(lib, n);
    hide Traversal, JoinUpdate, Abs, PlainRun, MapOfNewest, TreeOk, Reports, Globs.QueryMatch, NotiOk, GnmiUpdate;
    RunHoldsNewest(lib, ns);
    var t := RunAll(lib, ns).tree;
    TraversalReadsMap(t, glob, f, out);
    m := Abs(t);
    VisitsHaveUpdates(lib, ns, m, out);
  }

  /** End to end: plain updates arrive in any order, outdated ones and repetitions included.  If the
      newest updates of the paths a query asks for are the leaves of a schema-valid document, then
      what the query visits, in whatever order, folds to that document up to the order of list
      entries. */
  lemma {:induction false} CacheServesDocument(lib: Lib, ns: seq<Notification>,
      glob: Path, f: Visit -> bool, out: seq<Visit>,
                            p: seq<PathElem>, e: Entry, d: Json)
    requires PlainRun(lib, ns) && Injective(lib, ns)
    requires Traversal(RunAll(lib, ns).tree, glob, [], f, out, false)
    requires ValidObj(e, d) && Delivers(lib, ns, glob, p, e, d)
    ensures forall x | x in out :: |x.1.updates| > 0
    ensures var r := Rebuild.Fold(Read(|p|, out)); r.Ok? && SameDoc(r.value, d)
  {
    var m := QueryReadsNewest(lib, ns, glob, f, out);
    hide PlainRun, Traversal, ReadsMap, MapOfNewest, Delivers, Injective, ValidObj, LeavesOf, SameDoc, RunAll, Read;
    ReadsLeaves(lib, ns, m, glob, out, p, e, d);
    RoundTrip.RebuildsDocument(e, d, Read(|p|, out));
  }
}
