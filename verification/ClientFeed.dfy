/** The client callbacks: a map fed by them alone holds the values of the cache. */
module ClientFeed {
  import opened Gnmi
  import opened PathTree
  import opened Globs
  import opened TargetSpec
  import opened TargetRuns

  /** The client's own map after one callback. */
  function Feed(lib: Lib, m: map<Path, TypedVal>, c: Call): map<Path, TypedVal> {
    match c
    case Leafed(Leaf(n)) => if |n.updates| == 0 then m else m[JoinUpdate(lib, n) := n.updates[0].val]
    case Leafed(_) => m
    case RootDeleted(r) => map p | p in m && !(p != [] && p[0] == r) :: m[p]
  }

  function FeedAll(lib: Lib, calls: seq<Call>): map<Path, TypedVal> {
    if calls == [] then map[]
    else Feed(lib, FeedAll(lib, calls[..|calls| - 1]), calls[|calls| - 1])
  }

  /** The part of a client map on paths of real data. */
  function RealPart(m: map<Path, TypedVal>): map<Path, TypedVal> {
    map p | p in m && IsReal(p) :: m[p]
  }

  /** The values of the leaves on paths of real data. */
  function RealValues(m: map<Path, Value>): map<Path, TypedVal> {
    map p | p in m && IsReal(p) && |m[p].updates| > 0 :: m[p].updates[0].val
  }

  ghost function ClientValues(lib: Lib, st: State): map<Path, TypedVal> {
    RealPart(FeedAll(lib, st.feed))
  }

  ghost function CachedValues(st: State): map<Path, TypedVal> {
    RealValues(Abs(st.tree))
  }

  /** Every leaf holds one non-atomic update of its own path. */
  ghost predicate StoredOk(lib: Lib, t: Node) {
    forall p | p in Abs(t) :: var n := Abs(t)[p]; |n.updates| == 1 && !n.atomic && JoinUpdate(lib, n) == p
  }

  ghost predicate InSync(lib: Lib, st: State) {
    && TreeOk(st.tree)
    && StoredOk(lib, st.tree)
    && ClientValues(lib, st) == CachedValues(st)
  }

  /** Equality of values as the library decides it implies that they are the same. */
  ghost predicate EqSound(lib: Lib) {
    forall a, b :: lib.eq(a, b) ==> a == b
  }

  lemma FeedOneMore(lib: Lib, calls: seq<Call>, c: Call)
    ensures FeedAll(lib, calls + [c]) == Feed(lib, FeedAll(lib, calls), c)
  {
    assert (calls + [c])[..|calls|] == calls;
  }

  /** One update keeps the client in step, whether it is told or suppressed. */
  lemma UpdateKeepsSync(lib: Lib, st: State, n: Notification, k: int)
    requires EqSound(lib) && InSync(lib, st)
    requires |n.updates| == 1 && !n.atomic && !IsContainer(n) && PathOk(JoinUpdate(lib, n))
    ensures InSync(lib, Tell(UpdateOne(lib, st, n), k))
  {
    var u := UpdateOne(lib, st, n);
    var st' := Tell(u, k);
    var p := JoinUpdate(lib, n);
    UpdateOneMap(lib, st, n);
    OutcomeMeaning(lib, st, n);
    TellsTheLeaf(lib, st, n);
    UpdateCredits(lib, st, n, UpdateCount);
    hide UpdateOne, TreeOk, Abs, LeafAbove, LeafBelow;
    if u.outcome.Notified? { FeedOneMore(lib, st.feed, Leafed(Leaf(n))); }
    SyncStep(lib, st, st', n, u.outcome);
  }

  /** A plain update is told with the leaf that now holds it. */
  lemma TellsTheLeaf(lib: Lib, st: State, n: Notification)
    requires |n.updates| > 0 && PathOk(JoinUpdate(lib, n)) && !IsContainer(n) && TreeOk(st.tree)
    ensures var o := UpdateOne(lib, st, n).outcome; o.Notified? ==> o.node == Leaf(n)
  {
    var p := JoinUpdate(lib, n);
    LookIsGet(st.tree, p);
    if Get(st.tree, p).None? { AddPlainLook(st.tree, p, n, p); }
  }

  lemma SyncStep(lib: Lib, st: State, st': State, n: Notification, o: Outcome)
    requires EqSound(lib) && InSync(lib, st) && |n.updates| == 1 && !n.atomic && TreeOk(st'.tree)
    requires var p := JoinUpdate(lib, n);
             && Abs(st'.tree) == (if Writes(o) then Abs(st.tree)[p := n] else Abs(st.tree))
             && FeedAll(lib, st'.feed)
                == (if o.Notified? then FeedAll(lib, st.feed)[p := n.updates[0].val] else FeedAll(lib, st.feed))
             && (o.Suppressed? ==> p in Abs(st.tree) && SameValue(lib, Abs(st.tree)[p], n))
    ensures InSync(lib, st')
  {
    hide TreeOk, Abs, FeedAll, JoinUpdate, RealPart, RealValues;
    var p := JoinUpdate(lib, n);
    OneMorePart(FeedAll(lib, st.feed), p, n.updates[0].val);
    OneMoreLeaf(Abs(st.tree), p, n);
    if o.Suppressed? && IsReal(p) { SameValueStays(Abs(st.tree), p, n); }
  }

  lemma OneMorePart(c: map<Path, TypedVal>, p: Path, v: TypedVal)
    ensures RealPart(c[p := v]) == if IsReal(p) then RealPart(c)[p := v] else RealPart(c)
  {
  }

  lemma OneMoreLeaf(m: map<Path, Value>, p: Path, n: Notification)
    requires |n.updates| > 0
    ensures RealValues(m[p := n])
         == if IsReal(p) then RealValues(m)[p := n.updates[0].val] else RealValues(m)
  {
    if IsReal(p) {
      assert RealValues(m[p := n]).Keys == RealValues(m).Keys + {p};
    } else {
      assert RealValues(m[p := n]).Keys == RealValues(m).Keys;
    }
  }

  lemma SameValueStays(m: map<Path, Value>, p: Path, n: Notification)
    requires p in m && IsReal(p) && |n.updates| > 0 && |m[p].updates| > 0
    requires m[p].updates[0].val == n.updates[0].val
    ensures RealValues(m)[p := n.updates[0].val] == RealValues(m)
  {
  }

  // ---------------------------------------------------------------- notifications

  /** A non-atomic notification of plain values without deletes. */
  ghost predicate PlainNoti(lib: Lib, n: Notification) {
    && NotiOk(lib, n) && !n.atomic && n.deletes == []
    && forall u | u in n.updates :: !IsContainer(OnlyUpdate(n, u))
  }

  lemma {:induction false} UpdateAllKeepsSync(lib: Lib, st: State, n: Notification, k: nat)
    requires EqSound(lib) && InSync(lib, st) && PlainNoti(lib, n) && k <= |n.updates|
    ensures InSync(lib, UpdateAll(lib, st, n, k).st)
    decreases k
  {
    if k > 0 {
      UpdateAllKeepsSync(lib, st, n, k - 1);
      hide InSync, UpdateOne;
      UpdateKeepsSync(lib, UpdateAll(lib, st, n, k - 1).st, OnlyUpdate(n, n.updates[k - 1]), 1);
    }
  }

  lemma NotifyKeepsSync(lib: Lib, st: State, n: Notification)
    requires EqSound(lib) && InSync(lib, st) && PlainNoti(lib, n)
    ensures InSync(lib, GnmiUpdate(lib, st, n).st)
  {
    var st1 := CheckTimestamp(st, n.ts);
    assert InSync(lib, st1);
    hide InSync, UpdateOne;
    if |n.updates| > 1 {
      UpdateAllKeepsSync(lib, st1, n, |n.updates|);
    } else if |n.updates| == 1 {
      assert n.updates[0] in n.updates;
      assert OnlyUpdate(n, n.updates[0]) == n by { assert n.updates == [n.updates[0]]; }
      UpdateKeepsSync(lib, st1, n, 1);
    } else {
      assert GnmiUpdate(lib, st, n).st == AddInt(st1, EmptyCount, 1);
      CountersDoNotMatter(lib, st1, AddInt(st1, EmptyCount, 1));
    }
  }

  lemma CountersDoNotMatter(lib: Lib, st: State, st': State)
    requires InSync(lib, st) && st'.tree == st.tree && st'.feed == st.feed
    ensures InSync(lib, st')
  {
  }

  // ---------------------------------------------------------------- reset

  lemma {:induction false} MetaKeepsSync(lib: Lib, st: State, metas: seq<Notification>)
    requires EqSound(lib) && InSync(lib, st) && forall n | n in metas :: MetaNoti(lib, n)
    ensures InSync(lib, UpdateMeta(lib, st, metas))
    decreases |metas|
  {
    if metas != [] {
      var before, n := metas[..|metas| - 1], metas[|metas| - 1];
      assert MetaNoti(lib, n) by { assert n in metas; }
      assert forall x | x in before :: x in metas;
      MetaKeepsSync(lib, st, before);
      var st1 := UpdateMeta(lib, st, before);
      UpdateKeepsSync(lib, st1, n, 0);
      hide InSync, UpdateOne;
      CountersDoNotMatter(lib, Tell(UpdateOne(lib, st1, n), 0), UpdateMeta(lib, st, metas));
    }
  }

  /** Deleting roots leaves, of the tree and of the client's map, at most what lies elsewhere. */
  lemma {:induction false} DropRootsRemoves(lib: Lib, st: State, roots: seq<string>)
    requires TreeOk(st.tree)
    ensures var st' := DropRoots(st, roots);
            && TreeOk(st'.tree)
            && (forall p | p in Abs(st'.tree) ::
                  p in Abs(st.tree) && Abs(st'.tree)[p] == Abs(st.tree)[p] && !(p != [] && p[0] in roots))
            && (forall p | p in FeedAll(lib, st'.feed) ::
                  p in FeedAll(lib, st.feed) && !(p != [] && p[0] in roots))
    decreases |roots|
  {
    if roots != [] {
      var before, r := roots[..|roots| - 1], roots[|roots| - 1];
      assert roots == before + [r];
      DropRootsRemoves(lib, st, before);
      var st1 := DropRoots(st, before);
      DeleteRefinesFilter(st1.tree, [r], Always());
      FeedOneMore(lib, st1.feed, RootDeleted(r));
      DeleteIsNoLeaf(st1.tree, [r], Always());
      forall p | p != [] && p[0] == r ensures DeleteMatch([r], p) {
        assert [r][1..] == [];
      }
      hide DeleteConditional, DeleteMatch, Abs, TreeOk, FeedAll;
    }
  }

  lemma DeleteIsNoLeaf(t: Node, glob: Path, cond: Value -> bool)
    requires !t.Leaf?
    ensures !DeleteConditional(t, glob, cond).Leaf?
  {
  }

  lemma ResetKeepsSync(lib: Lib, st: State, metas: seq<Notification>, roots: seq<string>)
    requires EqSound(lib) && InSync(lib, st) && forall n | n in metas :: MetaNoti(lib, n)
    requires RootsOf(UpdateMeta(lib, ClearMeta(st), metas).tree, roots)
    ensures InSync(lib, ResetTo(lib, st, metas, roots))
    ensures CachedValues(ResetTo(lib, st, metas, roots)) == map[]
  {
    CountersDoNotMatter(lib, st, ClearMeta(st));
    MetaKeepsSync(lib, ClearMeta(st), metas);
    var st1 := UpdateMeta(lib, ClearMeta(st), metas);
    var st2 := DropRoots(st1, roots);
    DropRootsRemoves(lib, st1, roots);
    forall p | p in Abs(st1.tree) && IsReal(p) ensures p[0] in roots {
      AbsLook(st1.tree);
      LookStep(st1.tree, p);
    }
    hide DropRoots, UpdateMeta, Abs, TreeOk, FeedAll;
    assert forall p | p in FeedAll(lib, st1.feed) && IsReal(p) :: p in ClientValues(lib, st1);
    assert forall p | p in CachedValues(st1) :: p in Abs(st1.tree) && IsReal(p);
    assert ClientValues(lib, st2) == map[] == CachedValues(st2);
  }

  // ---------------------------------------------------------------- whole runs

  /** After every step of every run of plain notifications and resets, a map fed by the client
      callbacks alone holds exactly the cached values of the real data. */
  lemma {:induction false} FeedRebuildsCache(lib: Lib, events: seq<Event>, states: seq<State>, i: nat)
    requires EqSound(lib) && IsRun(lib, events, states) && states[0] == INIT && i < |states|
    requires forall e | e in events && e.Notify? :: PlainNoti(lib, e.n)
    ensures ClientValues(lib, states[i]) == CachedValues(states[i])
    ensures InSync(lib, states[i])
    decreases i
  {
    if i == 0 {
      assert Abs(Nil) == map[];
    } else {
      FeedRebuildsCache(lib, events, states, i - 1);
      hide InSync;
      assert events[i - 1] in events;
      match events[i - 1]
      case Notify(n) => NotifyKeepsSync(lib, states[i - 1], n);
      case Reset(metas, roots) => ResetKeepsSync(lib, states[i - 1], metas, roots);
      SyncMeaning(lib, states[i]);
    }
  }

  lemma SyncMeaning(lib: Lib, st: State)
    requires InSync(lib, st)
    ensures ClientValues(lib, st) == CachedValues(st)
  {
  }

  /** A delete is never told to the client.  So the two stay in step exactly when there was no
      leaf of real data for it to remove. */
  lemma DeleteIsNotTold(lib: Lib, st: State, n: Notification)
    requires InSync(lib, st) && |n.deletes| > 0 && PathOk(JoinDelete(lib, n))
    ensures var st' := Remove(lib, st, n);
            && st'.feed == st.feed
            && (ClientValues(lib, st') == CachedValues(st') <==>
                forall p | p in Abs(st.tree) && IsReal(p) ::
                  !(DeleteMatch(JoinDelete(lib, n), p) && Abs(st.tree)[p].ts < n.ts))
  {
    var glob := JoinDelete(lib, n);
    DeleteRefinesFilter(st.tree, glob, OlderThan(n.ts));
    FewerLeaves(Abs(st.tree), Abs(Remove(lib, st, n).tree));
  }

  /** Fewer leaves hold the same real values exactly when no leaf of real data is gone. */
  lemma FewerLeaves(m: map<Path, Value>, m': map<Path, Value>)
    requires forall p | p in m' :: p in m && m'[p] == m[p]
    requires forall p | p in m :: |m[p].updates| == 1
    ensures RealValues(m') == RealValues(m) <==> forall p | p in m && IsReal(p) :: p in m'
  {
    if p :| p in m && IsReal(p) && p !in m' {
      assert p in RealValues(m) && p !in RealValues(m');
    }
  }
}
