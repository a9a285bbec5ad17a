/** Properties of whole runs of a target cache. */
module TargetRuns {
  import opened Gnmi
  import opened PathTree
  import opened Globs
  import opened TargetSpec

  const INIT := State(Nil, None, false, Meta(map[], map[], map[]), [])

  // ---------------------------------------------------------------- one update against the map

  /** The tree of a cache: in normal form, and never a single leaf. */
  ghost predicate TreeOk(t: Node) {
    NormalRoot(t) && !t.Leaf?
  }

  /** The leaf that an update writes: its own path, or the placeholder of a new container. */
  function WriteAt(t: Node, p: Path, n: Notification): Path
    requires p != []
  {
    if IsContainer(n) && Get(t, p).None? then PlaceholderAt(t, p) else p
  }

  predicate Outdated(old_: Notification, n: Notification) {
    n.ts < old_.ts || old_ == n
  }

  predicate WrongMetaType(name: string, v: TypedVal) {
    || ((name == SYNC || name == CONNECTED) && !v.BoolVal?)
    || ((name == CONNECTED_ADDR || name == CONNECT_ERROR) && !v.StringVal?)
  }

  /** The update is written to the tree. */
  predicate Writes(o: Outcome) {
    o.Notified? || o.Suppressed?
  }

  lemma LookIsGet(t: Node, p: Path)
    requires TreeOk(t) && p != []
    ensures LeafBelow(t, p) <==> Get(t, p).Some? && Get(t, p).value.Branch?
    ensures p in Abs(t) <==> Get(t, p).Some? && Get(t, p).value.Leaf?
    ensures p in Abs(t) ==> Get(t, p).value == Leaf(Abs(t)[p])
    ensures Get(t, p).Some? ==> !Get(t, p).value.Nil?
  {
    AbsLook(t);
    BranchMeansBelow(t, p);
    if Get(t, p).Some? {
      if t.Nil? { assert false; }
      GetNormal(t, p);
    }
  }

  /** An update writes at most one leaf of the map, the one `WriteAt` names, exactly when it is
      neither rejected nor ignored. */
  lemma UpdateOneMap(lib: Lib, st: State, n: Notification)
    requires |n.updates| > 0 && PathOk(JoinUpdate(lib, n)) && TreeOk(st.tree)
    ensures var u := UpdateOne(lib, st, n);
            var p := JoinUpdate(lib, n);
            && TreeOk(u.st.tree)
            && (Writes(u.outcome) ==> Abs(u.st.tree) == Abs(st.tree)[WriteAt(st.tree, p, n) := n])
            && (!Writes(u.outcome) ==> u.st.tree == st.tree)
            && (p !in Abs(st.tree) && Writes(u.outcome) ==> WriteAt(st.tree, p, n) !in Abs(st.tree))
  {
    hide Add, SetAt, Normal, Abs, Look, PlaceholderAt;
    var p := JoinUpdate(lib, n);
    LookIsGet(st.tree, p);
    if Get(st.tree, p).Some? && Get(st.tree, p).value.Leaf? {
      SetLeafRefinesMap(st.tree, p, n);
      SetAtIsNoLeaf(st.tree, p, n);
    } else if Get(st.tree, p).None? {
      AddNewMap(st.tree, p, n);
    }
  }

  lemma SetAtIsNoLeaf(t: Node, p: Path, n: Notification)
    requires !t.Leaf? && p != []
    ensures !SetAt(t, p, Leaf(n)).Leaf?
  {
  }

  lemma AddNewMap(t: Node, p: Path, n: Notification)
    requires TreeOk(t) && p != [] && Get(t, p).None?
    ensures var a := Add(t, p, n);
            && TreeOk(a.tree)
            && (a.ok ==> Abs(a.tree) == Abs(t)[WriteAt(t, p, n) := n] && WriteAt(t, p, n) !in Abs(t))
            && (!a.ok ==> a.tree == t)
  {
    FailedAdd(t, p, n);
    AbsLook(t);
    if IsContainer(n) {
      AddContainerRefinesMap(t, p, n, "", n);
    } else {
      AddPlainRefinesMap(t, p, n);
    }
  }

  /** The outcome of an update. */
  lemma OutcomeMeaning(lib: Lib, st: State, n: Notification)
    requires |n.updates| > 0 && PathOk(JoinUpdate(lib, n)) && TreeOk(st.tree)
    ensures var o := UpdateOne(lib, st, n).outcome;
            var p := JoinUpdate(lib, n);
            var m := Abs(st.tree);
            && (o.MetaTypeError? <==> p[0] == ROOT && WrongMetaType(p[1], n.updates[0].val))
            && (!o.MetaTypeError? ==>
                  && (o.Collision? <==> LeafBelow(st.tree, p))
                  && (o.TreeError? <==> LeafAbove(st.tree, p))
                  && (o.Stale? <==> p in m && Outdated(m[p], n))
                  && (o.Suppressed? <==>
                        && p in m && !Outdated(m[p], n) && !n.atomic
                        && |m[p].updates| > 0 && lib.eq(m[p].updates[0].val, n.updates[0].val)))
  {
    var p := JoinUpdate(lib, n);
    var t := st.tree;
    LookIsGet(t, p);
    AbsLook(t);
    if LeafAbove(t, p) {
      var q :| q in Abs(t) && ProperPrefix(q, p);
      LeafStops(t, q, p);
    }
    if Get(t, p).None? {
      if IsContainer(n) { AddContainerLook(t, p, n, p); } else { AddPlainLook(t, p, n, p); }
    }
  }

  // ---------------------------------------------------------------- counters

  lemma CountAdd(st: State, c: Counter, k: int, c': Counter)
    ensures Count(AddInt(st, c, k), c') == Count(st, c') + (if c == c' then k else 0)
  {
  }

  /** What one update adds to each counter, before the client is told. */
  function Credit(o: Outcome, newLeaf: bool, c: Counter): int {
    if c == StaleCount && o.Stale? then 1
    else if c == SuppressedCount && o.Suppressed? then 1
    else if (c == LeafCount || c == AddCount) && o.Notified? && newLeaf then 1
    else 0
  }

  lemma ExistingCredits(lib: Lib, st: State, p: Path, old_: Notification, n: Notification, c: Counter)
    requires |n.updates| > 0
    ensures var u := UpdateExisting(lib, st, p, old_, n);
            Count(u.st, c) == Count(st, c) + Credit(u.outcome, false, c) && u.st.feed == st.feed && u.st.ts == st.ts
  {
    hide SetAt;
    CountAdd(st, StaleCount, 1, c);
    CountAdd(st.(tree := SetAt(st.tree, p, Leaf(n))), SuppressedCount, 1, c);
  }

  lemma NewCredits(st: State, p: Path, n: Notification, c: Counter)
    ensures var u := AddNew(st, p, n);
            Count(u.st, c) == Count(st, c) + Credit(u.outcome, IsReal(p), c) && u.st.feed == st.feed && u.st.ts == st.ts
  {
    hide Add, Get;
    var st' := st.(tree := Add(st.tree, p, n).tree);
    CountAdd(st', LeafCount, 1, c);
    CountAdd(AddInt(st', LeafCount, 1), AddCount, 1, c);
  }

  /** An update credits the counter of its outcome, and the leaf counters for a new real leaf. */
  lemma {:induction false} UpdateCredits(lib: Lib, st: State, n: Notification, c: Counter)
    requires |n.updates| > 0 && PathOk(JoinUpdate(lib, n))
    ensures var u := UpdateOne(lib, st, n);
            var p := JoinUpdate(lib, n);
            && Count(u.st, c) == Count(st, c) + Credit(u.outcome, IsReal(p) && Get(st.tree, p).None?, c)
            && u.st.feed == st.feed && u.st.ts == st.ts
  {
    hide AddNew, UpdateExisting, Get;
    var p := JoinUpdate(lib, n);
    var m := if p[0] == ROOT then MetaEffect(st, p[1], n.updates[0].val) else Some(st);
    if m.Some? {
      match Get(st.tree, p)
      case Some(node) => if node.Leaf? { ExistingCredits(lib, m.value, p, node.v, n, c); }
      case None => NewCredits(m.value, p, n, c);
    }
  }

  // ---------------------------------------------------------------- runs

  /** What can happen to a target from outside. */
  datatype Event = Notify(n: Notification) | Reset(metas: seq<Notification>, roots: seq<string>)

  /** The roots that Reset deletes: all but the metadata, in some order. */
  ghost predicate RootsOf(t: Node, roots: seq<string>) {
    forall k :: k in roots <==> k in Children(t) && k != ROOT
  }

  function ResetTo(lib: Lib, st: State, metas: seq<Notification>, roots: seq<string>): State
    requires forall n | n in metas :: MetaNoti(lib, n)
  {
    DropRoots(UpdateMeta(lib, ClearMeta(st), metas), roots)
  }

  ghost predicate EventOk(lib: Lib, st: State, e: Event) {
    match e
    case Notify(n) => NotiOk(lib, n)
    case Reset(metas, roots) =>
      && (forall n | n in metas :: MetaNoti(lib, n))
      && RootsOf(UpdateMeta(lib, ClearMeta(st), metas).tree, roots)
  }

  ghost function After(lib: Lib, st: State, e: Event): State
    requires EventOk(lib, st, e)
  {
    match e
    case Notify(n) => GnmiUpdate(lib, st, n).st
    case Reset(metas, roots) => ResetTo(lib, st, metas, roots)
  }

  /** A run from one state to the next. */
  ghost predicate IsRun(lib: Lib, events: seq<Event>, states: seq<State>) {
    && |states| == |events| + 1
    && forall i | 0 <= i < |events| ::
         EventOk(lib, states[i], events[i]) && states[i + 1] == After(lib, states[i], events[i])
  }
}
