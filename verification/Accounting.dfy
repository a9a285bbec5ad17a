/** The leaf counter and the tally of update outcomes. */
module Accounting {
  import opened Gnmi
  import opened PathTree
  import opened Globs
  import opened TargetSpec
  import opened TargetRuns
  import CF = ClientFeed

  function RealKeys(m: map<Path, Value>): set<Path> {
    set p | p in m && IsReal(p)
  }

  ghost function RealLeaves(t: Node): set<Path> {
    RealKeys(Abs(t))
  }

  /** The leaf counter is the number of leaves of real data. */
  ghost predicate Counted(st: State) {
    TreeOk(st.tree) && Count(st, LeafCount) == |RealLeaves(st.tree)|
  }

  lemma WriteAtIsReal(t: Node, p: Path, n: Notification)
    requires p != []
    ensures IsReal(WriteAt(t, p, n)) <==> IsReal(p)
  {
  }

  lemma UpdateCountsLeaves(lib: Lib, st: State, n: Notification, k: int)
    requires Counted(st) && |n.updates| > 0 && PathOk(JoinUpdate(lib, n))
    ensures Counted(Tell(UpdateOne(lib, st, n), k))
  {
    var u := UpdateOne(lib, st, n);
    var p := JoinUpdate(lib, n);
    var w := WriteAt(st.tree, p, n);
    UpdateOneMap(lib, st, n);
    WriteAtIsReal(st.tree, p, n);
    LeafCountStep(lib, st, n);
    OneMoreKey(Abs(st.tree), w, n);
    assert Count(Tell(u, k), LeafCount) == Count(u.st, LeafCount);
    hide UpdateOne, TreeOk, Abs, WriteAt, RealKeys;
  }

  lemma OneMoreKey(m: map<Path, Value>, w: Path, n: Notification)
    ensures |RealKeys(m[w := n])| == |RealKeys(m)| + (if w !in m && IsReal(w) then 1 else 0)
  {
    assert RealKeys(m[w := n]) == if IsReal(w) then RealKeys(m) + {w} else RealKeys(m);
  }

  /** gnmiUpdate counts a leaf exactly when it writes a leaf of real data that was not there. */
  lemma LeafCountStep(lib: Lib, st: State, n: Notification)
    requires |n.updates| > 0 && PathOk(JoinUpdate(lib, n)) && TreeOk(st.tree)
    ensures var u := UpdateOne(lib, st, n);
            var p := JoinUpdate(lib, n);
            Count(u.st, LeafCount) == Count(st, LeafCount)
              + (if Writes(u.outcome) && IsReal(p) && WriteAt(st.tree, p, n) !in Abs(st.tree) then 1 else 0)
  {
    var p := JoinUpdate(lib, n);
    LookIsGet(st.tree, p);
    UpdateCredits(lib, st, n, LeafCount);
    WritesNewLeaf(lib, st, n);
    hide UpdateOne, TreeOk, Abs, WriteAt;
  }

  /** An update that is written where no node was is told. */
  lemma WritesNewLeaf(lib: Lib, st: State, n: Notification)
    requires |n.updates| > 0 && PathOk(JoinUpdate(lib, n)) && TreeOk(st.tree)
    ensures var u := UpdateOne(lib, st, n);
            var p := JoinUpdate(lib, n);
            Writes(u.outcome) ==>
              && (Get(st.tree, p).None? <==> WriteAt(st.tree, p, n) !in Abs(st.tree))
              && (Get(st.tree, p).None? ==> u.outcome.Notified?)
  {
    var p := JoinUpdate(lib, n);
    LookIsGet(st.tree, p);
    if Get(st.tree, p).None? { AddNewMap(st.tree, p, n); }
    hide Add, Abs, TreeOk, PlaceholderAt, MetaEffect;
  }

  /** A notification without deletes: atomic or not, of any values. */
  ghost predicate NoDeletes(lib: Lib, n: Notification) {
    NotiOk(lib, n) && n.deletes == []
  }

  lemma {:induction false} UpdateAllCounts(lib: Lib, st: State, n: Notification, k: nat)
    requires Counted(st) && NotiOk(lib, n) && !n.atomic && k <= |n.updates|
    ensures Counted(UpdateAll(lib, st, n, k).st)
    decreases k
  {
    if k > 0 {
      UpdateAllCounts(lib, st, n, k - 1);
      hide Counted, UpdateOne;
      UpdateCountsLeaves(lib, UpdateAll(lib, st, n, k - 1).st, OnlyUpdate(n, n.updates[k - 1]), 1);
    }
  }

  lemma OtherCounters(st: State, st': State)
    requires Counted(st) && st'.tree == st.tree && Count(st', LeafCount) == Count(st, LeafCount)
    ensures Counted(st')
  {
  }

  lemma NotifyCounts(lib: Lib, st: State, n: Notification)
    requires Counted(st) && NoDeletes(lib, n)
    ensures Counted(GnmiUpdate(lib, st, n).st)
  {
    var st1 := CheckTimestamp(st, n.ts);
    OtherCounters(st, st1);
    OtherCounters(st1, AddInt(st1, EmptyCount, 1));
    hide Counted, UpdateOne;
    if n.atomic && n.updates != [] {
      UpdateCountsLeaves(lib, st1, n, |n.updates|);
    } else if !n.atomic && |n.updates| > 1 {
      UpdateAllCounts(lib, st1, n, |n.updates|);
    } else if !n.atomic && |n.updates| == 1 {
      assert n.updates[0] in n.updates;
      UpdateCountsLeaves(lib, st1, n, 1);
    }
  }

  lemma {:induction false} MetaCountsNothing(lib: Lib, st: State, metas: seq<Notification>)
    requires TreeOk(st.tree) && forall n | n in metas :: MetaNoti(lib, n)
    ensures TreeOk(UpdateMeta(lib, st, metas).tree)
    ensures Count(UpdateMeta(lib, st, metas), LeafCount) == Count(st, LeafCount)
    decreases |metas|
  {
    if metas != [] {
      var before, n := metas[..|metas| - 1], metas[|metas| - 1];
      assert MetaNoti(lib, n) by { assert n in metas; }
      assert forall x | x in before :: x in metas;
      MetaCountsNothing(lib, st, before);
      UpdateOneMap(lib, UpdateMeta(lib, st, before), n);
      LeafCountStep(lib, UpdateMeta(lib, st, before), n);
      hide UpdateOne, TreeOk;
    }
  }

  lemma {:induction false} DropRootsCountsNothing(st: State, roots: seq<string>)
    ensures Count(DropRoots(st, roots), LeafCount) == Count(st, LeafCount)
    decreases |roots|
  {
    if roots != [] { DropRootsCountsNothing(st, roots[..|roots| - 1]); }
  }

  lemma ResetCounts(lib: Lib, st: State, metas: seq<Notification>, roots: seq<string>)
    requires TreeOk(st.tree) && forall n | n in metas :: MetaNoti(lib, n)
    requires RootsOf(UpdateMeta(lib, ClearMeta(st), metas).tree, roots)
    ensures Counted(ResetTo(lib, st, metas, roots))
    ensures Count(ResetTo(lib, st, metas, roots), LeafCount) == 0
  {
    MetaCountsNothing(lib, ClearMeta(st), metas);
    var st1 := UpdateMeta(lib, ClearMeta(st), metas);
    DropRootsCountsNothing(st1, roots);
    CF.DropRootsRemoves(lib, st1, roots);
    forall p | p in Abs(st1.tree) && IsReal(p) ensures p[0] in roots {
      AbsLook(st1.tree);
      LookStep(st1.tree, p);
    }
    assert RealLeaves(DropRoots(st1, roots).tree) == {};
  }

  // ---------------------------------------------------------------- runs

  /** After every step of every run of updates (atomic groups and containers included) and resets,
      the leaf counter is the number of leaves of real data in the tree. */
  lemma {:induction false} LeafCountIsExact(lib: Lib, events: seq<Event>, states: seq<State>, i: nat)
    requires IsRun(lib, events, states) && states[0] == INIT && i < |states|
    requires forall e | e in events && e.Notify? :: NoDeletes(lib, e.n)
    ensures Count(states[i], LeafCount) == |RealLeaves(states[i].tree)|
    ensures TreeOk(states[i].tree)
    decreases i
  {
    if i == 0 {
      assert RealLeaves(Nil) == {};
    } else {
      LeafCountIsExact(lib, events, states, i - 1);
      assert events[i - 1] in events;
      match events[i - 1]
      case Notify(n) => NotifyCounts(lib, states[i - 1], n);
      case Reset(metas, roots) => ResetCounts(lib, states[i - 1], metas, roots);
    }
  }

  /** What a delete does to the counter has nothing to do with the leaves it removes.  A delete
      outside of the metadata leaves the counter, so it stays exact if and only if there is no leaf
      of real data to remove.  A delete in the metadata removes no leaf of real data, but sets the
      counter to zero if it names it, so it stays exact if and only if it does not or there is no
      leaf of real data at all. */
  lemma DeleteLeavesCounter(lib: Lib, st: State, n: Notification)
    requires Counted(st) && |n.deletes| > 0 && PathOk(JoinDelete(lib, n))
    ensures var st', glob := Remove(lib, st, n), JoinDelete(lib, n);
            Counted(st') <==>
              if IsReal(glob) then
                forall p | p in Abs(st.tree) && IsReal(p) ::
                  !(DeleteMatch(glob, p) && Abs(st.tree)[p].ts < n.ts)
              else lib.counter(glob[1]) == Some(LeafCount) ==> RealLeaves(st.tree) == {}
  {
    var glob := JoinDelete(lib, n);
    var st' := Remove(lib, st, n);
    DeleteRefinesFilter(st.tree, glob, OlderThan(n.ts));
    CF.DeleteIsNoLeaf(st.tree, glob, OlderThan(n.ts));
    FewerKeys(Abs(st.tree), Abs(st'.tree));
    hide DeleteConditional, Abs;
    if !IsReal(glob) {
      assert RealLeaves(st'.tree) == RealLeaves(st.tree);
    }
  }

  /** With fewer leaves, the number of real ones is the same exactly when no real one is gone. */
  lemma FewerKeys(m: map<Path, Value>, m': map<Path, Value>)
    requires m'.Keys <= m.Keys
    ensures |RealKeys(m')| == |RealKeys(m)| <==> forall p | p in m && IsReal(p) :: p in m'
  {
    if p :| p in RealKeys(m) && p !in RealKeys(m') {
      SubsetIsSmaller(RealKeys(m'), RealKeys(m) - {p});
    } else {
      assert RealKeys(m') == RealKeys(m);
      assert forall p | p in m && IsReal(p) :: p in RealKeys(m);
    }
  }

  lemma {:induction false} SubsetIsSmaller(a: set<Path>, b: set<Path>)
    requires a <= b
    ensures |a| <= |b|
    decreases a
  {
    if a != {} {
      var x :| x in a;
      SubsetIsSmaller(a - {x}, b - {x});
    }
  }

  // ---------------------------------------------------------------- the tally

  /** A single, non-atomic update. */
  ghost predicate Single(lib: Lib, n: Notification) {
    NotiOk(lib, n) && !n.atomic && |n.updates| == 1 && n.deletes == []
  }

  /** The states and outcomes of sending single updates one after the other. */
  ghost predicate IsTally(lib: Lib, ns: seq<Notification>, states: seq<State>, outcomes: seq<Outcome>) {
    && |states| == |ns| + 1 && |outcomes| == |ns|
    && (forall i | 0 <= i < |ns| :: Single(lib, ns[i]))
    && (forall i | 0 <= i < |ns| ::
          && states[i + 1] == GnmiUpdate(lib, states[i], ns[i]).st
          && PathOk(JoinUpdate(lib, ns[i]))
          && outcomes[i] == UpdateOne(lib, CheckTimestamp(states[i], ns[i].ts), ns[i]).outcome)
  }

  function Notifieds(os: seq<Outcome>): nat {
    if os == [] then 0 else Notifieds(os[..|os| - 1]) + (if os[|os| - 1].Notified? then 1 else 0)
  }

  function Suppresseds(os: seq<Outcome>): nat {
    if os == [] then 0 else Suppresseds(os[..|os| - 1]) + (if os[|os| - 1].Suppressed? then 1 else 0)
  }

  function Stales(os: seq<Outcome>): nat {
    if os == [] then 0 else Stales(os[..|os| - 1]) + (if os[|os| - 1].Stale? then 1 else 0)
  }

  lemma TallyStep(lib: Lib, st: State, n: Notification)
    requires Single(lib, n)
    ensures PathOk(JoinUpdate(lib, n))
    ensures var r := GnmiUpdate(lib, st, n);
            var o := UpdateOne(lib, CheckTimestamp(st, n.ts), n).outcome;
            && Count(r.st, UpdateCount) == Count(st, UpdateCount) + (if o.Notified? then 1 else 0)
            && Count(r.st, SuppressedCount) == Count(st, SuppressedCount) + (if o.Suppressed? then 1 else 0)
            && Count(r.st, StaleCount) == Count(st, StaleCount) + (if o.Stale? then 1 else 0)
            && |r.st.feed| == |st.feed| + (if o.Notified? then 1 else 0)
            && r.ok == !o.IsError()
  {
    assert n.updates[0] in n.updates;
    var st1 := CheckTimestamp(st, n.ts);
    var u := UpdateOne(lib, st1, n);
    UpdateCredits(lib, st1, n, UpdateCount);
    UpdateCredits(lib, st1, n, SuppressedCount);
    UpdateCredits(lib, st1, n, StaleCount);
    assert GnmiUpdate(lib, st, n) == Response(Tell(u, 1), !u.outcome.IsError());
    hide UpdateOne, GnmiUpdate;
  }

  /** Over any run of single updates from any state, each update is counted in the one place its
      outcome says and told to the client exactly when it is notified. */
  lemma {:induction false} EachUpdateCountedOnce(lib: Lib, ns: seq<Notification>, states: seq<State>,
        outcomes: seq<Outcome>, k: nat)
    requires IsTally(lib, ns, states, outcomes) && k <= |ns|
    ensures Count(states[k], UpdateCount) - Count(states[0], UpdateCount) == Notifieds(outcomes[..k])
    ensures Count(states[k], SuppressedCount) - Count(states[0], SuppressedCount) == Suppresseds(outcomes[..k])
    ensures Count(states[k], StaleCount) - Count(states[0], StaleCount) == Stales(outcomes[..k])
    ensures |states[k].feed| - |states[0].feed| == Notifieds(outcomes[..k])
    decreases k
  {
    if k > 0 {
      EachUpdateCountedOnce(lib, ns, states, outcomes, k - 1);
      assert outcomes[..k][..k - 1] == outcomes[..k - 1];
      TallyStep(lib, states[k - 1], ns[k - 1]);
      hide GnmiUpdate, UpdateOne;
    }
  }
}
