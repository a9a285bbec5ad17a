/** Last writer wins: what a run of plain updates leaves in the cache does not depend on the
    order, or the number of times, in which the updates arrive. */
module LastWriter {
  import opened Gnmi
  import opened PathTree
  import opened TargetSpec
  import opened TargetRuns

  /** A single, non-atomic update of a plain value on a path of real data. */
  ghost predicate PlainUpdate(lib: Lib, n: Notification) {
    && !n.atomic && |n.updates| == 1 && n.deletes == [] && !IsContainer(n)
    && IsReal(JoinUpdate(lib, n))
  }

  ghost predicate PlainRun(lib: Lib, ns: seq<Notification>) {
    && (forall n | n in ns :: PlainUpdate(lib, n) && NotiOk(lib, n))
    && (forall a, b | a in ns && b in ns :: !ProperPrefix(JoinUpdate(lib, a), JoinUpdate(lib, b)))
  }

  /** Sends the notifications to a new target, one after the other. */
  function RunAll(lib: Lib, ns: seq<Notification>): State
    requires forall n | n in ns :: NotiOk(lib, n)
  {
    if ns == [] then INIT
    else
      assert ns[|ns| - 1] in ns && forall n | n in ns[..|ns| - 1] :: n in ns;
      GnmiUpdate(lib, RunAll(lib, ns[..|ns| - 1]), ns[|ns| - 1]).st
  }

  /** `w` is a newest update of its path among `ns`. */
  ghost predicate Newest(lib: Lib, ns: seq<Notification>, w: Notification)
    requires forall n | n in ns :: |n.updates| > 0
  {
    w in ns && forall n | n in ns && JoinUpdate(lib, n) == JoinUpdate(lib, w) :: n.ts <= w.ts
  }

  /** The map holds one newest update for each path that was updated, and no other path. */
  ghost predicate MapOfNewest(lib: Lib, ns: seq<Notification>, m: map<Path, Value>)
    requires forall n | n in ns :: |n.updates| > 0
  {
    && (forall p | p in m :: Newest(lib, ns, m[p]) && JoinUpdate(lib, m[p]) == p)
    && (forall n | n in ns :: JoinUpdate(lib, n) in m)
  }

  /** The largest timestamp of a run. */
  function Latest(ns: seq<Notification>): Option<int> {
    if ns == [] then None
    else
      var t := Latest(ns[..|ns| - 1]);
      var n := ns[|ns| - 1];
      if t.None? || n.ts > t.value then Some(n.ts) else t
  }

  lemma {:induction false} LatestIsMaximum(ns: seq<Notification>)
    ensures Latest(ns).None? <==> ns == []
    ensures forall n | n in ns :: Latest(ns).Some? && n.ts <= Latest(ns).value
    ensures ns != [] ==> exists n :: n in ns && Latest(ns) == Some(n.ts)
    decreases |ns|
  {
    if ns != [] {
      var before, last := ns[..|ns| - 1], ns[|ns| - 1];
      assert ns == before + [last] && last in ns;
      LatestIsMaximum(before);
      forall n | n in ns ensures n.ts <= Latest(ns).value {
        assert n in before || n == last;
      }
      if Latest(ns) != Some(last.ts) {
        var n :| n in before && Latest(before) == Some(n.ts);
        assert n in ns;
      }
    }
  }

  /** One plain update on a prefix-free map. */
  lemma PlainStep(lib: Lib, st: State, n: Notification)
    requires PlainUpdate(lib, n) && NotiOk(lib, n) && TreeOk(st.tree)
    requires !LeafAbove(st.tree, JoinUpdate(lib, n)) && !LeafBelow(st.tree, JoinUpdate(lib, n))
    ensures var st' := GnmiUpdate(lib, st, n).st;
            var p := JoinUpdate(lib, n);
            var m := Abs(st.tree);
            && TreeOk(st'.tree)
            && Abs(st'.tree) == (if p in m && Outdated(m[p], n) then m else m[p := n])
            && st'.ts == CheckTimestamp(st, n.ts).ts
  {
    UpdateOneMap(lib, CheckTimestamp(st, n.ts), n);
    OutcomeMeaning(lib, CheckTimestamp(st, n.ts), n);
    hide TreeOk, Abs, UpdateOne;
    UpdateCredits(lib, CheckTimestamp(st, n.ts), n, UpdateCount);
  }

  /** On a prefix-free set of paths no stored leaf is in the way of an update. */
  lemma NoConflict(lib: Lib, ns: seq<Notification>, before: seq<Notification>, n: Notification, t: Node)
    requires PlainRun(lib, ns) && n in ns && forall x | x in before :: x in ns
    requires MapOfNewest(lib, before, Abs(t))
    ensures !LeafAbove(t, JoinUpdate(lib, n)) && !LeafBelow(t, JoinUpdate(lib, n))
  {
    hide Abs, JoinUpdate;
    var m := Abs(t);
    forall q | q in m ensures !ProperPrefix(q, JoinUpdate(lib, n)) && !ProperPrefix(JoinUpdate(lib, n), q) {
      assert m[q] in ns;
    }
  }

  lemma AllPlain(lib: Lib, ns: seq<Notification>, before: seq<Notification>, n: Notification)
    requires PlainRun(lib, ns) && n in ns && forall x | x in before :: x in ns
    ensures forall x | x in before + [n] :: |x.updates| > 0
    ensures PlainUpdate(lib, n) && NotiOk(lib, n)
  {
    hide NotiOk, JoinUpdate;
    assert forall x | x in before + [n] :: x in ns && PlainUpdate(lib, x);
  }

  lemma RunStep(lib: Lib, ns: seq<Notification>, before: seq<Notification>, n: Notification, st: State)
    requires PlainRun(lib, ns) && n in ns && forall x | x in before :: x in ns
    requires TreeOk(st.tree) && MapOfNewest(lib, before, Abs(st.tree)) && st.ts == Latest(before)
    ensures forall x | x in before + [n] :: |x.updates| > 0
    ensures NotiOk(lib, n)
    ensures var st' := GnmiUpdate(lib, st, n).st;
            && TreeOk(st'.tree) && MapOfNewest(lib, before + [n], Abs(st'.tree)) && st'.ts == Latest(before + [n])
  {
    hide GnmiUpdate, Abs, TreeOk, JoinUpdate, LeafAbove, LeafBelow, PlainRun, MapOfNewest, Outdated;
    AllPlain(lib, ns, before, n);
    NoConflict(lib, ns, before, n, st.tree);
    assert (before + [n])[..|before|] == before;
    PlainStep(lib, st, n);
    NextOfNewest(lib, before, n, Abs(st.tree));
  }

  /** Every run of plain updates on a prefix-free set of paths keeps the newest update of each
      path, whatever the order of arrival. */
  lemma {:induction false} RunHoldsNewest(lib: Lib, ns: seq<Notification>)
    requires PlainRun(lib, ns)
    ensures TreeOk(RunAll(lib, ns).tree)
    ensures MapOfNewest(lib, ns, Abs(RunAll(lib, ns).tree))
    ensures RunAll(lib, ns).ts == Latest(ns)
    decreases |ns|
  {
    if ns == [] {
      assert Abs(Nil) == map[];
    } else {
      var before, n := ns[..|ns| - 1], ns[|ns| - 1];
      assert ns == before + [n] && n in ns;
      assert forall x | x in before :: x in ns;
      RunHoldsNewest(lib, before);
      RunStep(lib, ns, before, n, RunAll(lib, before));
    }
  }

  /** Taking one more update in, unless it is outdated, keeps the newest of each path. */
  lemma NextOfNewest(lib: Lib, before: seq<Notification>, n: Notification, m: map<Path, Value>)
    requires (forall x | x in before :: |x.updates| > 0) && |n.updates| > 0
    requires MapOfNewest(lib, before, m)
    ensures forall x | x in before + [n] :: |x.updates| > 0
    ensures var p := JoinUpdate(lib, n);
            MapOfNewest(lib, before + [n], if p in m && Outdated(m[p], n) then m else m[p := n])
  {
    hide JoinUpdate;
    var ns := before + [n];
    assert forall x :: x in ns <==> x in before || x == n;
    var p := JoinUpdate(lib, n);
    var m' := if p in m && Outdated(m[p], n) then m else m[p := n];
    forall q | q in m' ensures Newest(lib, ns, m'[q]) {
      if q in m { assert Newest(lib, before, m[q]); }
      if p in m { assert Newest(lib, before, m[p]); }
    }
  }

  /** No path has two different newest updates. */
  ghost predicate OneNewest(lib: Lib, ns: seq<Notification>)
    requires forall n | n in ns :: |n.updates| > 0
  {
    forall a, b | Newest(lib, ns, a) && Newest(lib, ns, b) && JoinUpdate(lib, a) == JoinUpdate(lib, b) :: a == b
  }

  /** The run delivers the same updates, in some order and with some repetitions. */
  ghost predicate SameUpdates(ns: seq<Notification>, ms: seq<Notification>) {
    forall n :: n in ns <==> n in ms
  }

  /** What a run leaves in the tree. */
  ghost function FinalMap(lib: Lib, ns: seq<Notification>): map<Path, Value>
    requires forall n | n in ns :: NotiOk(lib, n)
  {
    Abs(RunAll(lib, ns).tree)
  }

  lemma FinalMapIsNewest(lib: Lib, ns: seq<Notification>)
    requires PlainRun(lib, ns)
    ensures forall n | n in ns :: |n.updates| > 0 && NotiOk(lib, n)
    ensures MapOfNewest(lib, ns, FinalMap(lib, ns))
  {
    RunHoldsNewest(lib, ns);
  }

  /** Convergence: two runs that deliver the same updates, in any order and with any repetitions,
      leave the same flat map, if no path has two newest updates. */
  lemma {:induction false} Converges(lib: Lib, ns: seq<Notification>, ms: seq<Notification>)
    requires PlainRun(lib, ns) && PlainRun(lib, ms) && SameUpdates(ns, ms) && OneNewest(lib, ns)
    ensures FinalMap(lib, ns) == FinalMap(lib, ms)
  {
    FinalMapIsNewest(lib, ns);
    FinalMapIsNewest(lib, ms);
    hide FinalMap, MapOfNewest, OneNewest, PlainRun;
    SameNewest(lib, ns, ms, FinalMap(lib, ns), FinalMap(lib, ms));
  }

  /** The timestamp converges in any case. */
  lemma {:induction false} TimestampConverges(lib: Lib, ns: seq<Notification>, ms: seq<Notification>)
    requires PlainRun(lib, ns) && PlainRun(lib, ms) && SameUpdates(ns, ms)
    ensures RunAll(lib, ns).ts == RunAll(lib, ms).ts
  {
    RunHoldsNewest(lib, ns);
    RunHoldsNewest(lib, ms);
    SameLatest(ns, ms);
  }

  lemma SameLatest(ns: seq<Notification>, ms: seq<Notification>)
    requires SameUpdates(ns, ms)
    ensures Latest(ns) == Latest(ms)
  {
    LatestIsMaximum(ns);
    LatestIsMaximum(ms);
    assert ns != [] ==> ns[0] in ms;
    assert ms != [] ==> ms[0] in ns;
  }

  lemma SameNewest(lib: Lib, ns: seq<Notification>, ms: seq<Notification>, a: map<Path, Value>, b: map<Path, Value>)
    requires (forall n | n in ns :: |n.updates| > 0) && SameUpdates(ns, ms)
    requires OneNewest(lib, ns) && MapOfNewest(lib, ns, a) && MapOfNewest(lib, ms, b)
    ensures a == b
  {
    hide JoinUpdate;
    forall p ensures p in a <==> p in b {
      if p in a { assert Newest(lib, ns, a[p]); assert a[p] in ms; }
      if p in b { assert Newest(lib, ms, b[p]); assert b[p] in ns; }
    }
    forall p | p in a ensures a[p] == b[p] {
      assert Newest(lib, ns, a[p]) && Newest(lib, ms, b[p]);
      assert Newest(lib, ns, b[p]);
    }
  }

  lemma NewestIsStored(lib: Lib, ns: seq<Notification>, st: State, a: Notification)
    requires PlainRun(lib, ns) && Newest(lib, ns, a)
    requires TreeOk(st.tree) && MapOfNewest(lib, ns, Abs(st.tree))
    ensures var m := Abs(GnmiUpdate(lib, st, a).st.tree); JoinUpdate(lib, a) in m && m[JoinUpdate(lib, a)] == a
  {
    NoConflict(lib, ns, ns, a, st.tree);
    hide Abs, JoinUpdate, TreeOk, LeafAbove, LeafBelow, GnmiUpdate;
    PlainStep(lib, st, a);
    assert Newest(lib, ns, Abs(st.tree)[JoinUpdate(lib, a)]);
  }

  lemma OneMoreRun(lib: Lib, ns: seq<Notification>, a: Notification)
    requires forall n | n in ns + [a] :: NotiOk(lib, n)
    ensures forall n | n in ns :: NotiOk(lib, n)
    ensures NotiOk(lib, a) && RunAll(lib, ns + [a]) == GnmiUpdate(lib, RunAll(lib, ns), a).st
  {
    hide GnmiUpdate, NotiOk;
    assert (ns + [a])[..|ns|] == ns && a in ns + [a];
    assert forall n | n in ns :: n in ns + [a];
  }

  lemma AgainIsPlain(lib: Lib, ns: seq<Notification>, a: Notification)
    requires PlainRun(lib, ns) && a in ns
    ensures PlainRun(lib, ns + [a]) && SameUpdates(ns, ns + [a])
  {
    assert forall n :: n in ns + [a] <==> n in ns;
  }

  /** Of several newest updates of one path, the one that arrives last stays. */
  lemma LastNewestStays(lib: Lib, ns: seq<Notification>, a: Notification)
    requires PlainRun(lib, ns) && Newest(lib, ns, a)
    ensures PlainRun(lib, ns + [a]) && SameUpdates(ns, ns + [a])
    ensures var m, p := FinalMap(lib, ns + [a]), JoinUpdate(lib, a); p in m && m[p] == a
  {
    AgainIsPlain(lib, ns, a);
    OneMoreRun(lib, ns, a);
    RunHoldsNewest(lib, ns);
    hide RunAll, GnmiUpdate, JoinUpdate, TreeOk, MapOfNewest, PlainRun, Abs;
    NewestIsStored(lib, ns, RunAll(lib, ns), a);
  }

  /** All runs that deliver these updates leave the same flat map exactly when no path has two
      newest updates. */
  lemma {:induction false} ConvergesExactly(lib: Lib, ns: seq<Notification>)
    requires PlainRun(lib, ns)
    ensures (forall ms | PlainRun(lib, ms) && SameUpdates(ns, ms) :: FinalMap(lib, ms) == FinalMap(lib, ns))
            <==> OneNewest(lib, ns)
  {
    hide FinalMap, JoinUpdate;
    if OneNewest(lib, ns) {
      forall ms | PlainRun(lib, ms) && SameUpdates(ns, ms) ensures FinalMap(lib, ms) == FinalMap(lib, ns) {
        Converges(lib, ns, ms);
      }
    } else {
      var a, b :| Newest(lib, ns, a) && Newest(lib, ns, b) && JoinUpdate(lib, a) == JoinUpdate(lib, b) && a != b;
      LastNewestStays(lib, ns, a);
      LastNewestStays(lib, ns, b);
    }
  }
}
