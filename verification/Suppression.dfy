/** Suppression: the client is told of an update of real data exactly when it changes a value. */
module Suppression {
  import opened Gnmi
  import opened PathTree
  import opened TargetSpec
  import opened TargetRuns
  import opened ClientFeed

  /** Equality of values as the library decides it is equality. */
  ghost predicate EqExact(lib: Lib) {
    forall a, b :: lib.eq(a, b) <==> a == b
  }

  /** A single plain update of real data. */
  ghost predicate PlainReal(lib: Lib, n: Notification) {
    |n.updates| == 1 && !n.atomic && !IsContainer(n) && IsReal(JoinUpdate(lib, n))
  }

  /** The update is told to the client if and only if it changes the values of the cache. */
  lemma ToldExactly(lib: Lib, st: State, n: Notification)
    requires EqExact(lib) && TreeOk(st.tree) && StoredOk(lib, st.tree) && PlainReal(lib, n)
    ensures var u := UpdateOne(lib, st, n);
            u.outcome.Notified? <==> CachedValues(u.st) != CachedValues(st)
  {
    var p, m, o := JoinUpdate(lib, n), Abs(st.tree), UpdateOne(lib, st, n).outcome;
    UpdateOneMap(lib, st, n);
    OutcomeMeaning(lib, st, n);
    OneMoreLeaf(m, p, n);
    hide UpdateOne, TreeOk, Abs, LeafAbove, LeafBelow, JoinUpdate, StoredOk, RealValues;
    if o.Suppressed? {
      assert |m[p].updates| == 1 by { StoredHere(lib, st.tree, p); }
      SameValueStays(m, p, n);
    }
    if o.Notified? { NewValueShows(lib, st, n); }
  }

  lemma StoredHere(lib: Lib, t: Node, p: Path)
    requires StoredOk(lib, t) && p in Abs(t)
    ensures |Abs(t)[p].updates| == 1
  {
  }

  lemma NewValueShows(lib: Lib, st: State, n: Notification)
    requires EqExact(lib) && TreeOk(st.tree) && StoredOk(lib, st.tree) && PlainReal(lib, n)
    requires UpdateOne(lib, st, n).outcome.Notified?
    ensures var p, old_ := JoinUpdate(lib, n), CachedValues(st); p in old_ ==> old_[p] != n.updates[0].val
  {
    OutcomeMeaning(lib, st, n);
    hide UpdateOne, TreeOk, Abs, LeafAbove, LeafBelow, JoinUpdate;
  }

  /** An atomic group that is accepted is always told, even if it brings no new value. */
  lemma AtomicAlwaysTold(lib: Lib, st: State, n: Notification)
    requires n.atomic && |n.updates| > 0 && n.deletes == [] && PathOk(n.prefix) && TreeOk(st.tree)
    ensures var u, r := UpdateOne(lib, CheckTimestamp(st, n.ts), n), GnmiUpdate(lib, st, n);
            Writes(u.outcome) ==> u.outcome.Notified? && r.ok && r.st.feed == st.feed + [Leafed(u.outcome.node)]
  {
    var st1 := CheckTimestamp(st, n.ts);
    OutcomeMeaning(lib, st1, n);
    UpdateCredits(lib, st1, n, UpdateCount);
    hide UpdateOne, TreeOk, Abs, LeafAbove, LeafBelow;
  }

  /** What is told is the node that now stands at the path, of a container the branch. */
  lemma ToldIsTheNode(lib: Lib, st: State, n: Notification)
    requires |n.updates| > 0 && PathOk(JoinUpdate(lib, n)) && TreeOk(st.tree)
    ensures var u := UpdateOne(lib, st, n);
            u.outcome.Notified? ==> Get(u.st.tree, JoinUpdate(lib, n)) == Some(u.outcome.node)
  {
    var p := JoinUpdate(lib, n);
    LookIsGet(st.tree, p);
    if Get(st.tree, p).None? {
      FailedAdd(st.tree, p, n);
      if Add(st.tree, p, n).ok { AddedNodeExists(st.tree, p, n); }
    } else if Get(st.tree, p).value.Leaf? {
      SetIsRead(st.tree, p, Leaf(n));
    }
    hide Add, SetAt, TreeOk, MetaEffect;
  }

  lemma {:induction false} SetIsRead(t: Node, p: Path, x: Node)
    requires Get(t, p).Some?
    ensures Get(SetAt(t, p, x), p) == Some(x)
  {
    if p != [] { SetIsRead(Children(t)[p[0]], p[1..], x); }
  }

  // ---------------------------------------------------------------- whole runs

  /** The call brings a leaf of real data. */
  predicate Brings(lib: Lib, c: Call) {
    c.Leafed? && c.node.Leaf? && |c.node.v.updates| > 0 && IsReal(JoinUpdate(lib, c.node.v))
  }

  /** Every call that brings a leaf of real data changes the client's map. */
  ghost predicate NoIdleCall(lib: Lib, feed: seq<Call>) {
    forall i | 0 <= i < |feed| && Brings(lib, feed[i]) ::
      RealPart(FeedAll(lib, feed[..i + 1])) != RealPart(FeedAll(lib, feed[..i]))
  }

  lemma OneMoreCall(lib: Lib, feed: seq<Call>, c: Call)
    requires NoIdleCall(lib, feed)
    requires Brings(lib, c) ==> RealPart(FeedAll(lib, feed + [c])) != RealPart(FeedAll(lib, feed))
    ensures NoIdleCall(lib, feed + [c])
  {
    hide FeedAll, RealPart, Brings;
    var more := feed + [c];
    forall i | 0 <= i < |more| && Brings(lib, more[i])
      ensures RealPart(FeedAll(lib, more[..i + 1])) != RealPart(FeedAll(lib, more[..i]))
    {
      if i < |feed| {
        assert more[..i + 1] == feed[..i + 1] && more[..i] == feed[..i] && Brings(lib, feed[i]);
      } else {
        assert more[..i + 1] == more && more[..i] == feed;
      }
    }
  }

  ghost predicate Tidy(lib: Lib, st: State) {
    InSync(lib, st) && NoIdleCall(lib, st.feed)
  }

  lemma UpdateKeepsTidy(lib: Lib, st: State, n: Notification, k: int)
    requires EqExact(lib) && Tidy(lib, st)
    requires |n.updates| == 1 && !n.atomic && !IsContainer(n) && PathOk(JoinUpdate(lib, n))
    ensures Tidy(lib, Tell(UpdateOne(lib, st, n), k))
  {
    var u := UpdateOne(lib, st, n);
    UpdateKeepsSync(lib, st, n, k);
    UpdateCredits(lib, st, n, UpdateCount);
    TellsTheLeaf(lib, st, n);
    if IsReal(JoinUpdate(lib, n)) { ToldExactly(lib, st, n); }
    SyncMeaning(lib, st);
    SyncMeaning(lib, Tell(u, k));
    hide UpdateOne, InSync, NoIdleCall, FeedAll, RealPart, CachedValues;
    if u.outcome.Notified? { OneMoreCall(lib, st.feed, Leafed(Leaf(n))); }
  }

  lemma {:induction false} UpdateAllKeepsTidy(lib: Lib, st: State, n: Notification, k: nat)
    requires EqExact(lib) && Tidy(lib, st) && PlainNoti(lib, n) && k <= |n.updates|
    ensures Tidy(lib, UpdateAll(lib, st, n, k).st)
    decreases k
  {
    if k > 0 {
      UpdateAllKeepsTidy(lib, st, n, k - 1);
      hide Tidy, UpdateOne;
      UpdateKeepsTidy(lib, UpdateAll(lib, st, n, k - 1).st, OnlyUpdate(n, n.updates[k - 1]), 1);
    }
  }

  lemma SameFeedIsTidy(lib: Lib, st: State, st': State)
    requires Tidy(lib, st) && st'.tree == st.tree && st'.feed == st.feed
    ensures Tidy(lib, st')
  {
  }

  lemma NotifyKeepsTidy(lib: Lib, st: State, n: Notification)
    requires EqExact(lib) && Tidy(lib, st) && PlainNoti(lib, n)
    ensures Tidy(lib, GnmiUpdate(lib, st, n).st)
  {
    var st1 := CheckTimestamp(st, n.ts);
    SameFeedIsTidy(lib, st, st1);
    hide Tidy, UpdateOne;
    if |n.updates| > 1 {
      UpdateAllKeepsTidy(lib, st1, n, |n.updates|);
    } else if |n.updates| == 1 {
      assert n.updates[0] in n.updates;
      assert OnlyUpdate(n, n.updates[0]) == n by { assert n.updates == [n.updates[0]]; }
      UpdateKeepsTidy(lib, st1, n, 1);
    } else {
      assert GnmiUpdate(lib, st, n).st == AddInt(st1, EmptyCount, 1);
      SameFeedIsTidy(lib, st1, AddInt(st1, EmptyCount, 1));
    }
  }

  lemma {:induction false} MetaKeepsTidy(lib: Lib, st: State, metas: seq<Notification>)
    requires EqExact(lib) && Tidy(lib, st) && forall n | n in metas :: MetaNoti(lib, n)
    ensures Tidy(lib, UpdateMeta(lib, st, metas))
    decreases |metas|
  {
    if metas != [] {
      var before, n := metas[..|metas| - 1], metas[|metas| - 1];
      assert MetaNoti(lib, n) by { assert n in metas; }
      assert forall x | x in before :: x in metas;
      MetaKeepsTidy(lib, st, before);
      var st1 := UpdateMeta(lib, st, before);
      UpdateKeepsTidy(lib, st1, n, 0);
      hide Tidy, UpdateOne;
      SameFeedIsTidy(lib, Tell(UpdateOne(lib, st1, n), 0), UpdateMeta(lib, st, metas));
    }
  }

  lemma {:induction false} DropsAreNoLeaves(lib: Lib, st: State, roots: seq<string>)
    requires NoIdleCall(lib, st.feed)
    ensures NoIdleCall(lib, DropRoots(st, roots).feed)
    decreases |roots|
  {
    if roots != [] {
      DropsAreNoLeaves(lib, st, roots[..|roots| - 1]);
      hide NoIdleCall, DeleteConditional;
      OneMoreCall(lib, DropRoots(st, roots[..|roots| - 1]).feed, RootDeleted(roots[|roots| - 1]));
    }
  }

  /** Over every run of plain notifications and resets, each call that brings a leaf of real data
      changes the client's map: repeated values are not told again. */
  lemma {:induction false} NoCallIsIdle(lib: Lib, events: seq<Event>, states: seq<State>, i: nat)
    requires EqExact(lib) && IsRun(lib, events, states) && states[0] == INIT && i < |states|
    requires forall e | e in events && e.Notify? :: PlainNoti(lib, e.n)
    ensures NoIdleCall(lib, states[i].feed)
    ensures Tidy(lib, states[i])
    decreases i
  {
    if i == 0 {
      assert Abs(Nil) == map[];
    } else {
      NoCallIsIdle(lib, events, states, i - 1);
      assert events[i - 1] in events;
      var st := states[i - 1];
      match events[i - 1]
      case Notify(n) =>
        hide InSync, NoIdleCall, Tidy;
        NotifyKeepsTidy(lib, st, n);
        TidyMeaning(lib, states[i]);
      case Reset(metas, roots) =>
        hide InSync, NoIdleCall;
        SameFeedIsTidy(lib, st, ClearMeta(st));
        MetaKeepsTidy(lib, ClearMeta(st), metas);
        DropsAreNoLeaves(lib, UpdateMeta(lib, ClearMeta(st), metas), roots);
        ResetKeepsSync(lib, st, metas, roots);
    }
  }

  lemma TidyMeaning(lib: Lib, st: State)
    requires Tidy(lib, st)
    ensures InSync(lib, st) && NoIdleCall(lib, st.feed)
  {
  }
}
