/** What the operations of a target cache compute, as functions on its whole state. */
module TargetSpec {
  import opened Gnmi
  import opened PathTree

  /** Library functions the cache relies on: path flattening, value equality and the names of
      the metadata counters. */
  datatype Lib = Lib(
    flat: seq<PathElem> -> Path,
    eq: (TypedVal, TypedVal) -> bool,
    counter: string -> Option<Counter>)

  datatype Counter = LeafCount | AddCount | UpdateCount | StaleCount | SuppressedCount | EmptyCount | DelCount

  datatype Meta = Meta(ints: map<Counter, int>, bools: map<string, bool>, strs: map<string, string>)

  const ROOT := "meta"
  const SYNC := "sync"
  const CONNECTED := "connected"
  const CONNECTED_ADDR := "connectedAddress"
  const CONNECT_ERROR := "connectError"

  /** One call of the client callback: with a node of the tree (its content at the time of the
      call), or with the deletion of everything under a root. */
  datatype Call = Leafed(node: Node) | RootDeleted(root: string)

  /** `ts` is None for the zero time. */
  datatype State = State(tree: Node, ts: Option<int>, sync: bool, meta: Meta, feed: seq<Call>)

  function Count(st: State, c: Counter): int {
    if c in st.meta.ints then st.meta.ints[c] else 0
  }

  function AddInt(st: State, c: Counter, k: int): State {
    st.(meta := st.meta.(ints := st.meta.ints[c := Count(st, c) + k]))
  }

  /** The path a single update is stored at; an atomic group is stored under its prefix. */
  function JoinUpdate(lib: Lib, n: Notification): Path
    requires |n.updates| > 0
  {
    if n.atomic then n.prefix else n.prefix + lib.flat(n.updates[0].path)
  }

  function JoinDelete(lib: Lib, n: Notification): Path
    requires |n.deletes| > 0
  {
    n.prefix + lib.flat(n.deletes[0])
  }

  predicate IsReal(p: Path) {
    p != [] && p[0] != ROOT
  }

  /** The cache indexes the path at 0, and at 1 for metadata. */
  predicate PathOk(p: Path) {
    p != [] && (p[0] == ROOT ==> |p| > 1)
  }

  datatype Outcome =
    | Notified(node: Node)   // the client is to be told
    | Suppressed             // stored, but the value is the old one
    | Collision              // the path is a branch: ignored
    | Stale                  // error: older than what is stored, or the same notification again
    | TreeError              // error: the path runs through a leaf
    | MetaTypeError          // error: a metadata value of the wrong type
  {
    predicate IsError() { Stale? || TreeError? || MetaTypeError? }
  }

  /** The effect of a metadata update on the target's own fields; None for a wrong type. */
  function MetaEffect(st: State, name: string, v: TypedVal): Option<State> {
    if name == SYNC then
      if v.BoolVal? then Some(st.(sync := v.bv, meta := st.meta.(bools := st.meta.bools[SYNC := v.bv]))) else None
    else if name == CONNECTED then
      if v.BoolVal? then Some(st.(meta := st.meta.(bools := st.meta.bools[CONNECTED := v.bv]))) else None
    else if name == CONNECTED_ADDR || name == CONNECT_ERROR then
      if v.StringVal? then Some(st.(meta := st.meta.(strs := st.meta.strs[name := v.sv]))) else None
    else Some(st)
  }

  predicate SameValue(lib: Lib, old_: Notification, n: Notification)
    requires |n.updates| > 0
  {
    !n.atomic && |old_.updates| > 0 && lib.eq(old_.updates[0].val, n.updates[0].val)
  }

  datatype Updated = Updated(st: State, outcome: Outcome)

  /** gnmiUpdate on an existing leaf. */
  function UpdateExisting(lib: Lib, st: State, path: Path, old_: Notification, n: Notification): Updated
    requires |n.updates| > 0
  {
    if n.ts < old_.ts || (n.ts == old_.ts && old_ == n) then
      Updated(AddInt(st, StaleCount, 1), Stale)
    else
      var st' := st.(tree := SetAt(st.tree, path, Leaf(n)));
      if SameValue(lib, old_, n) then Updated(AddInt(st', SuppressedCount, 1), Suppressed)
      else Updated(st', Notified(Leaf(n)))
  }

  /** gnmiUpdate where there is no node yet. */
  function AddNew(st: State, path: Path, n: Notification): Updated {
    var a := Add(st.tree, path, n);
    if !a.ok then Updated(st, TreeError)
    else
      var st' := st.(tree := a.tree);
      Updated(if IsReal(path) then AddInt(AddInt(st', LeafCount, 1), AddCount, 1) else st',
              Notified(Get(a.tree, path).GetOr(Nil)))
  }

  /** gnmiUpdate: one update, or one atomic group. */
  function UpdateOne(lib: Lib, st: State, n: Notification): Updated
    requires |n.updates| > 0 && PathOk(JoinUpdate(lib, n))
  {
    var path := JoinUpdate(lib, n);
    var m := if path[0] == ROOT then MetaEffect(st, path[1], n.updates[0].val) else Some(st);
    if m.None? then Updated(st, MetaTypeError)
    else
      match Get(st.tree, path)
      case Some(node) =>
        if node.Leaf? then UpdateExisting(lib, m.value, path, node.v, n) else Updated(m.value, Collision)
      case None => AddNew(m.value, path, n)
  }

  /** What GnmiUpdate does with the result of gnmiUpdate: count and tell the client. */
  function Tell(u: Updated, k: int): State {
    if u.outcome.Notified?
    then var st := AddInt(u.st, UpdateCount, k); st.(feed := st.feed + [Leafed(u.outcome.node)])
    else u.st
  }

  function ResetEntry(lib: Lib, st: State, name: string): State {
    var ints := match lib.counter(name)
                case Some(c) => st.meta.ints[c := 0]
                case None => st.meta.ints;
    st.(meta := Meta(ints, st.meta.bools - {name}, st.meta.strs - {name}))
  }

  function OlderThan(ts: int): Value -> bool {
    (v: Value) => v.ts < ts
  }

  /** gnmiRemove: no removed leaf is ever reported, so nothing is counted or told. */
  function Remove(lib: Lib, st: State, n: Notification): State
    requires |n.deletes| > 0 && PathOk(JoinDelete(lib, n))
  {
    var path := JoinDelete(lib, n);
    var st' := if path[0] == ROOT then ResetEntry(lib, st, path[1]) else st;
    st'.(tree := DeleteConditional(st'.tree, path, OlderThan(n.ts)))
  }

  function CheckTimestamp(st: State, ts: int): State {
    if st.ts.None? || ts > st.ts.value then st.(ts := Some(ts)) else st
  }

  function OnlyUpdate(n: Notification, u: Update): Notification {
    n.(updates := [u], deletes := [])
  }

  function OnlyDelete(n: Notification, d: seq<PathElem>): Notification {
    n.(updates := [], deletes := [d])
  }

  /** All the paths of the notification are ones the cache can index. */
  predicate NotiOk(lib: Lib, n: Notification) {
    if n.atomic then PathOk(n.prefix)
    else
      && (forall u | u in n.updates :: PathOk(n.prefix + lib.flat(u.path)))
      && (forall d | d in n.deletes :: PathOk(n.prefix + lib.flat(d)))
  }

  datatype Response = Response(st: State, ok: bool)

  /** The loop over the updates of a notification: errors are collected, not fatal. */
  function UpdateAll(lib: Lib, st: State, n: Notification, k: nat): Response
    requires NotiOk(lib, n) && !n.atomic && k <= |n.updates|
  {
    if k == 0 then Response(st, true)
    else
      var r := UpdateAll(lib, st, n, k - 1);
      var u := UpdateOne(lib, r.st, OnlyUpdate(n, n.updates[k - 1]));
      Response(Tell(u, 1), r.ok && !u.outcome.IsError())
  }

  function RemoveAll(lib: Lib, st: State, n: Notification, k: nat): State
    requires NotiOk(lib, n) && !n.atomic && k <= |n.deletes|
  {
    if k == 0 then st
    else Remove(lib, AddInt(RemoveAll(lib, st, n, k - 1), UpdateCount, 1), OnlyDelete(n, n.deletes[k - 1]))
  }

  /** GnmiUpdate. */
  function GnmiUpdate(lib: Lib, st0: State, n: Notification): Response
    requires NotiOk(lib, n)
  {
    var st := CheckTimestamp(st0, n.ts);
    if n.atomic then
      if |n.deletes| > 0 then Response(st, false)
      else if |n.updates| == 0 then Response(AddInt(st, EmptyCount, 1), true)
      else
        var u := UpdateOne(lib, st, n);
        Response(Tell(u, |n.updates|), !u.outcome.IsError())
    else if |n.updates| + |n.deletes| > 1 then
      var r := UpdateAll(lib, st, n, |n.updates|);
      Response(RemoveAll(lib, r.st, n, |n.deletes|), r.ok)
    else if |n.updates| == 1 then
      var u := UpdateOne(lib, st, n);
      Response(Tell(u, 1), !u.outcome.IsError())
    else if |n.deletes| == 1 then
      Response(Remove(lib, AddInt(st, UpdateCount, 1), n), true)
    else
      Response(AddInt(st, EmptyCount, 1), true)
  }

  // ---------------------------------------------------------------- Reset

  /** A metadata update as updateMeta sends it. */
  predicate MetaNoti(lib: Lib, n: Notification) {
    && |n.updates| == 1 && n.deletes == [] && !n.atomic && !IsContainer(n)
    && |JoinUpdate(lib, n)| > 1 && JoinUpdate(lib, n)[0] == ROOT
  }

  /** updateMeta with the notifications it decides to send: told, but not counted. */
  function UpdateMeta(lib: Lib, st: State, metas: seq<Notification>): State
    requires forall n | n in metas :: MetaNoti(lib, n)
  {
    if metas == [] then st
    else
      var last := metas[|metas| - 1];
      assert MetaNoti(lib, last) by { assert last in metas; }
      assert forall n | n in metas[..|metas| - 1] :: n in metas;
      var u := UpdateOne(lib, UpdateMeta(lib, st, metas[..|metas| - 1]), last);
      if u.outcome.Notified? then u.st.(feed := u.st.feed + [Leafed(u.outcome.node)]) else u.st
  }

  function ClearMeta(st: State): State {
    st.(meta := Meta(map[], map[], map[]))
  }

  /** The condition of an unconditional Delete. */
  function Always(): Value -> bool {
    (v: Value) => true
  }

  /** Deletes one root of the tree and tells the client. */
  function DropRoot(st: State, root: string): State {
    st.(tree := DeleteConditional(st.tree, [root], Always()), feed := st.feed + [RootDeleted(root)])
  }

  /** Deletes the given roots in this order. */
  function DropRoots(st: State, roots: seq<string>): State {
    if roots == [] then st else DropRoot(DropRoots(st, roots[..|roots| - 1]), roots[|roots| - 1])
  }
}
