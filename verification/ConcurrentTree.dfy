/** Concurrent calls of Add and DeleteConditional on one tree, one atomic lock or node access
    at a time.  A lock belongs to the node at a path: nodes vanish only under the root's writer
    lock, when no other call holds any lock (`DeletingAlone`). */
module ConcurrentTree {
  import opened Gnmi
  import opened PathTree
  import Globs

  datatype Mode = R | W

  datatype Op =
    | AddOp(path: Path, v: Value)
    | DelOp(glob: Path, cond: Value -> bool)

  /** Where a call stands.  `d` is the depth of the node it works on. */
  datatype Pc =
    | Enter(d: nat)       // about to lock the node
    | Reading(d: nat)     // intermediateAdd, under the reader lock
    | Upgrading(d: nat)   // no child found: about to give the reader lock up
    | Gap(d: nat)         // holds no lock on the node; about to take the writer lock
    | Writing(d: nat)     // slowAdd, under the writer lock
    | AtLeaf              // terminalAdd, under the writer lock
    | Deleting            // internalDelete, under the root's writer lock
    | Unwind(ok: bool)    // result known; the deferred unlocks run, innermost first

  /** `held[j]` is the lock held on the node at depth `j` of the call's path; `lin` is the
      result recorded when the call took effect. */
  datatype Thread =
    | Ready(op: Op)
    | Running(op: Op, pc: Pc, held: seq<Mode>, lin: Option<bool>)
    | Finished(op: Op, ok: bool)

  /** One call taking effect. */
  datatype Event = Event(t: nat, op: Op, ok: bool)

  /** `init` is the tree all calls started from. */
  datatype State = State(init: Node, tree: Node, threads: map<nat, Thread>, log: seq<Event>)

  function OpPath(op: Op): Path {
    if op.AddOp? then op.path else []
  }

  /** The lock a call holds on the node at `q`. */
  function HeldAt(th: Thread, q: Path): Option<Mode> {
    if th.Running? && |q| < |th.held| && q <= OpPath(th.op) then Some(th.held[|q|]) else None
  }

  predicate FreeToRead(s: State, t: nat, q: Path) {
    forall u | u in s.threads && u != t :: HeldAt(s.threads[u], q) != Some(W)
  }

  predicate FreeToWrite(s: State, t: nat, q: Path) {
    forall u | u in s.threads && u != t :: HeldAt(s.threads[u], q).None?
  }

  function Move(s: State, t: nat, th: Thread): State {
    s.(threads := s.threads[t := th])
  }

  /** The call takes effect: the tree may change, the result is fixed. */
  function Effect(s: State, t: nat, th: Thread, tree: Node, ok: bool): State {
    Move(s, t, th).(tree := tree, log := s.log + [Event(t, th.op, ok)])
  }

  /** One access of an Add call, given the node it stands on. */
  function ActAdd(s: State, t: nat, th: Thread): State
    requires th.Running? && th.op.AddOp?
  {
    var path, v := th.op.path, th.op.v;
    match th.pc
    case Enter(d) =>
      if d < |path| then
        if FreeToRead(s, t, path[..d]) then Move(s, t, th.(pc := Reading(d), held := th.held + [R])) else s
      else
        if FreeToWrite(s, t, path) then Move(s, t, th.(pc := AtLeaf, held := th.held + [W])) else s
    case Reading(d) =>
      var n := if d < |path| then Get(s.tree, path[..d]) else None;
      if n.None? then s
      else if n.value.Leaf? then Effect(s, t, th.(pc := Unwind(false), lin := Some(false)), s.tree, false)
      else if path[d] in Children(n.value) then Move(s, t, th.(pc := Enter(d + 1)))
      else Move(s, t, th.(pc := Upgrading(d)))
    case Upgrading(d) =>
      if th.held == [] then s else Move(s, t, th.(pc := Gap(d), held := th.held[..|th.held| - 1]))
    case Gap(d) =>
      if d <= |path| && FreeToWrite(s, t, path[..d])
      then Move(s, t, th.(pc := Writing(d), held := th.held + [W])) else s
    case Writing(d) =>
      var n := if d < |path| then Get(s.tree, path[..d]) else None;
      if n.None? then s
      else if n.value.Leaf? then Effect(s, t, th.(pc := Unwind(false), lin := Some(false)), s.tree, false)
      else if path[d] in Children(n.value) then Move(s, t, th.(pc := Enter(d + 1)))
      else
        var n' := Branch(Children(n.value)[path[d] := NewBranch(path[d + 1..], v, path[d])]);
        Effect(s, t, th.(pc := Enter(d + 1), lin := Some(true)), SetAt(s.tree, path[..d], n'), true)
    case AtLeaf =>
      var n := Get(s.tree, path);
      if n.None? then s
      else
        var a := TerminalAdd(n.value, v);
        var th' := th.(pc := Unwind(a.ok), lin := Some(a.ok));
        var tree' := SetAt(s.tree, path, a.tree);
        if th.lin.None? then Effect(s, t, th', tree', a.ok) else Move(s, t, th').(tree := tree')
    case Unwind(ok) =>
      if th.held == [] then Move(s, t, Finished(th.op, ok))
      else Move(s, t, th.(held := th.held[..|th.held| - 1]))
    case Deleting => s
  }

  /** One access of a DeleteConditional call. */
  function ActDelete(s: State, t: nat, th: Thread): State
    requires th.Running? && th.op.DelOp?
  {
    match th.pc
    case Enter(_) =>
      if FreeToWrite(s, t, []) then Move(s, t, th.(pc := Deleting, held := [W])) else s
    case Deleting =>
      Effect(s, t, th.(pc := Unwind(true), lin := Some(true)),
             DeleteConditional(s.tree, th.op.glob, th.op.cond), true)
    case Unwind(ok) =>
      if th.held == [] then Move(s, t, Finished(th.op, ok)) else Move(s, t, th.(held := []))
    case _ => s
  }

  /** The next access of call `t`; a call that waits for a lock leaves the state as it is. */
  function Act(s: State, t: nat): State {
    if t !in s.threads then s
    else match s.threads[t]
      case Ready(op) => Move(s, t, Running(op, Enter(0), [], None))
      case Running(op, _, _, _) =>
        if op.AddOp? then ActAdd(s, t, s.threads[t]) else ActDelete(s, t, s.threads[t])
      case Finished(_, _) => s
  }

  /** Any interleaving: the calls act in the order the schedule names them. */
  function Run(s: State, schedule: seq<nat>): State {
    if schedule == [] then s
    else Act(Run(s, schedule[..|schedule| - 1]), schedule[|schedule| - 1])
  }

  function Init(tree: Node, ops: map<nat, Op>): State {
    State(tree, tree, map t | t in ops :: Ready(ops[t]), [])
  }

  // ---------------------------------------------------------------- the sequential meaning

  function Sequential(t: Node, op: Op): Added {
    match op
    case AddOp(p, v) => Add(t, p, v)
    case DelOp(g, c) => Added(DeleteConditional(t, g, c), true)
  }

  /** The tree after the logged calls, one after the other. */
  function Replay(t: Node, log: seq<Event>): Node {
    if log == [] then t
    else Sequential(Replay(t, log[..|log| - 1]), log[|log| - 1].op).tree
  }

  /** Every logged result is the one the sequential order gives. */
  ghost predicate ResultsAgree(t: Node, log: seq<Event>) {
    forall i | 0 <= i < |log| :: Sequential(Replay(t, log[..i]), log[i].op).ok == log[i].ok
  }

  // ---------------------------------------------------------------- invariant

  /** The call stands on nodes that exist, holds one lock per level, and, once it has inserted
      its branch, finds its value at its path. */
  ghost predicate ThreadOk(tree: Node, th: Thread) {
    th.Running? ==>
      var p := OpPath(th.op);
      && |th.held| <= |p| + 1
      && (th.op.DelOp? ==> th.pc == Enter(0) || th.pc.Deleting? || th.pc.Unwind?)
      && match th.pc
         case Enter(d) => d == |th.held| <= |p| && Get(tree, p[..d]).Some? && InsertStands(tree, th)
         case Reading(d) =>
           && d + 1 == |th.held| <= |p| && th.held[d] == R
           && Get(tree, p[..d]).Some? && InsertStands(tree, th)
         case Upgrading(d) => d + 1 == |th.held| <= |p| && Get(tree, p[..d]).Some? && th.lin.None?
         case Gap(d) => d == |th.held| < |p| && Get(tree, p[..d]).Some? && th.lin.None?
         case Writing(d) =>
           && d + 1 == |th.held| <= |p| && th.held[d] == W
           && Get(tree, p[..d]).Some? && th.lin.None?
         case AtLeaf =>
           && |th.held| == |p| + 1 && th.held[|p|] == W
           && Get(tree, p).Some? && InsertStands(tree, th)
         case Deleting => th.op.DelOp? && th.held == [W] && th.lin.None?
         case Unwind(ok) => th.lin == Some(ok)
  }

  /** A plain value stands at its path; of a container, the node at its path stands. */
  predicate Stands(tree: Node, path: Path, v: Value) {
    if IsContainer(v) then Get(tree, path).Some? else Look(tree, path) == Some(v)
  }

  /** A call that has inserted its branch still holds the writer lock it did it under, and what it
      inserted stands. */
  ghost predicate InsertStands(tree: Node, th: Thread)
    requires th.Running?
  {
    th.lin.Some? ==>
      && th.op.AddOp? && th.lin == Some(true) && W in th.held
      && Stands(tree, th.op.path, th.op.v)
  }

  ghost predicate Exclusive(a: Thread, b: Thread) {
    forall q :: HeldAt(a, q) == Some(W) ==> HeldAt(b, q).None?
  }

  /** Whether the log has recorded the call. */
  function Logged(th: Thread): Option<bool> {
    match th
    case Ready(_) => None
    case Running(_, _, _, lin) => lin
    case Finished(_, ok) => Some(ok)
  }

  /** The log holds one event for each call that has taken effect, and none for any other. */
  ghost predicate LogOk(threads: map<nat, Thread>, log: seq<Event>) {
    && (forall i | 0 <= i < |log| ::
          log[i].t in threads && threads[log[i].t].op == log[i].op && Logged(threads[log[i].t]) == Some(log[i].ok))
    && (forall i, j | 0 <= i < j < |log| :: log[i].t != log[j].t)
    && (forall t | t in threads && Logged(threads[t]).Some? :: exists i :: 0 <= i < |log| && log[i].t == t)
  }

  ghost predicate Inv(s: State) {
    && NormalRoot(s.tree)
    && (forall t | t in s.threads :: ThreadOk(s.tree, s.threads[t]))
    && (forall t, u | t in s.threads && u in s.threads && t != u :: Exclusive(s.threads[t], s.threads[u]))
    && LogOk(s.threads, s.log)
    && s.tree == Replay(s.init, s.log)
    && ResultsAgree(s.init, s.log)
  }

  /** The states the invariant describes. */
  type Good = s: State | Inv(s) ghost witness State(Nil, Nil, map[], [])

  // ---------------------------------------------------------------- local and sequential effects

  /** slowAdd's local insertion is the whole Add. */
  lemma {:induction false} InsertIsAdd(t: Node, p: Path, d: nat, v: Value)
    requires d < |p| && Get(t, p[..d]).Some?
    requires !Get(t, p[..d]).value.Leaf? && p[d] !in Children(Get(t, p[..d]).value)
    ensures Add(t, p, v)
         == Added(SetAt(t, p[..d],
              Branch(Children(Get(t, p[..d]).value)[p[d] := NewBranch(p[d + 1..], v, p[d])])), true)
    decreases d
  {
    if d == 0 {
      AddToNewBranch(p[1..], v, p[0]);
    } else {
      assert p[1..][..d - 1] == p[..d][1..] && p[1..][d..] == p[d + 1..];
      InsertIsAdd(Children(t)[p[0]], p[1..], d - 1, v);
    }
  }

  lemma {:induction false} BelowLeafFails(t: Node, p: Path, d: nat, v: Value)
    requires d < |p| && Get(t, p[..d]) .Some? && Get(t, p[..d]).value.Leaf?
    ensures Add(t, p, v) == Added(t, false)
    decreases d
  {
    if d > 0 {
      assert p[1..][..d - 1] == p[..d][1..];
      BelowLeafFails(Children(t)[p[0]], p[1..], d - 1, v);
      assert Children(t)[p[0] := Children(t)[p[0]]] == Children(t);
    }
  }

  /** Putting back what is there changes nothing. */
  lemma {:induction false} SetSame(t: Node, q: Path)
    requires Get(t, q).Some?
    ensures SetAt(t, q, Get(t, q).value) == t
    decreases q
  {
    if q != [] {
      SetSame(Children(t)[q[0]], q[1..]);
      assert Children(t)[q[0] := Children(t)[q[0]]] == Children(t);
    }
  }

  /** Add never removes a node. */
  lemma {:induction false} AddKeepsNodes(t: Node, p: Path, v: Value, q: Path)
    requires Get(t, q).Some?
    ensures Get(Add(t, p, v).tree, q).Some?
    decreases p
  {
    if p != [] && q != [] && !t.Leaf? && p[0] == q[0] {
      AddKeepsNodes(Children(t)[p[0]], p[1..], v, q[1..]);
    }
  }

  lemma GetStep(t: Node, p: Path, d: nat)
    requires d < |p| && Get(t, p[..d]).Some?
    ensures Get(t, p[..d + 1]).Some? <==> p[d] in Children(Get(t, p[..d]).value)
  {
    GetAppend(t, p[..d], [p[d]]);
    assert p[..d] + [p[d]] == p[..d + 1];
  }

  lemma PrefixExists(t: Node, p: Path, d: nat)
    requires d <= |p| && Get(t, p).Some?
    ensures Get(t, p[..d]).Some?
  {
    GetAppend(t, p[..d], p[d..]);
    assert p[..d] + p[d..] == p;
  }

  // ---------------------------------------------------------------- steps

  lemma Footing(s: Good, t: nat)
    requires t in s.threads
    ensures ThreadOk(s.tree, s.threads[t])
  {
  }

  lemma Apart(s: Good, t: nat, u: nat)
    requires t in s.threads && u in s.threads && t != u
    ensures Exclusive(s.threads[t], s.threads[u])
  {
  }

  lemma TreeNormal(s: Good)
    ensures NormalRoot(s.tree)
  {
  }

  /** A call changes its own standing without taking effect. */
  lemma MoveKeepsInv(s: Good, t: nat, th: Thread) returns (s': Good)
    requires t in s.threads
    requires th.op == s.threads[t].op && Logged(th) == Logged(s.threads[t])
    requires ThreadOk(s.tree, th)
    requires forall u | u in s.threads && u != t :: Exclusive(th, s.threads[u]) && Exclusive(s.threads[u], th)
    ensures s' == Move(s, t, th)
  {
    hide ThreadOk, ResultsAgree, Replay, Exclusive, NormalRoot, LogOk;
    MoveKeepsLog(s.threads, s.log, t, th);
    s' := Move(s, t, th);
  }

  lemma MoveKeepsLog(threads: map<nat, Thread>, log: seq<Event>, t: nat, th: Thread)
    requires LogOk(threads, log) && t in threads
    requires th.op == threads[t].op && Logged(th) == Logged(threads[t])
    ensures LogOk(threads[t := th], log)
  {
    var threads' := threads[t := th];
    forall u | u in threads' && Logged(threads'[u]).Some?
      ensures exists i :: 0 <= i < |log| && log[i].t == u
    {
      assert Logged(threads[u]).Some?;
    }
  }

  /** Giving locks up keeps exclusion. */
  lemma FewerLocks(th: Thread, th': Thread, other: Thread)
    requires Exclusive(th, other) && Exclusive(other, th)
    requires forall q :: HeldAt(th', q).Some? ==> HeldAt(th', q) == HeldAt(th, q)
    ensures Exclusive(th', other) && Exclusive(other, th')
  {
  }

  /** Taking one more lock that is free keeps exclusion. */
  lemma OneMoreLock(s: State, t: nat, th: Thread, th': Thread, m: Mode, u: nat)
    requires u in s.threads && u != t && th.Running? && th'.Running? && th'.op == th.op
    requires th'.held == th.held + [m] && |th.held| <= |OpPath(th.op)|
    requires if m == W then FreeToWrite(s, t, OpPath(th.op)[..|th.held|])
             else FreeToRead(s, t, OpPath(th.op)[..|th.held|])
    requires Exclusive(th, s.threads[u]) && Exclusive(s.threads[u], th)
    ensures Exclusive(th', s.threads[u]) && Exclusive(s.threads[u], th')
  {
    var at := OpPath(th.op)[..|th.held|];
    forall q ensures HeldAt(th', q) == if q == at then Some(m) else HeldAt(th, q) {
      if q <= OpPath(th.op) && |q| == |th.held| { assert q == at; }
    }
  }

  /** A call takes effect. */
  lemma EffectKeepsInv(s: Good, t: nat, th: Thread, tree: Node, ok: bool) returns (s': Good)
    requires t in s.threads
    requires th.Running? && th.op == s.threads[t].op && th.lin == Some(ok)
    requires s.threads[t].Running? && th.held == s.threads[t].held && s.threads[t].lin.None?
    requires Sequential(s.tree, th.op) == Added(tree, ok) && NormalRoot(tree)
    requires ThreadOk(tree, th)
    requires forall u | u in s.threads && u != t :: ThreadOk(tree, s.threads[u])
    ensures s' == Effect(s, t, th, tree, ok)
  {
    hide ThreadOk, Exclusive, NormalRoot, LogOk, ResultsAgree, Replay, Sequential;
    forall u | u in s.threads && u != t
      ensures Exclusive(th, s.threads[u]) && Exclusive(s.threads[u], th)
    {
      FewerLocks(s.threads[t], th, s.threads[u]);
    }
    EffectKeepsLog(s.threads, s.log, t, th, Event(t, th.op, ok));
    EffectKeepsReplay(s.init, s.log, Event(t, th.op, ok), tree);
    s' := Effect(s, t, th, tree, ok);
  }

  lemma EffectKeepsReplay(t0: Node, log: seq<Event>, e: Event, tree: Node)
    requires ResultsAgree(t0, log) && Sequential(Replay(t0, log), e.op) == Added(tree, e.ok)
    ensures ResultsAgree(t0, log + [e]) && Replay(t0, log + [e]) == tree
  {
    var log' := log + [e];
    assert log'[..|log|] == log;
    forall i | 0 <= i < |log'|
      ensures Sequential(Replay(t0, log'[..i]), log'[i].op).ok == log'[i].ok
    {
      if i < |log| { assert log'[..i] == log[..i]; }
    }
  }

  lemma EffectKeepsLog(threads: map<nat, Thread>, log: seq<Event>, t: nat, th: Thread, e: Event)
    requires LogOk(threads, log) && t in threads && Logged(threads[t]).None?
    requires e.t == t && e.op == th.op == threads[t].op && Logged(th) == Some(e.ok)
    ensures LogOk(threads[t := th], log + [e])
  {
    var threads' := threads[t := th];
    forall u | u in threads' && Logged(threads'[u]).Some?
      ensures exists i :: 0 <= i < |log + [e]| && (log + [e])[i].t == u
    {
      if u == t {
        assert (log + [e])[|log|].t == u;
      } else {
        var i :| 0 <= i < |log| && log[i].t == u;
        assert (log + [e])[i].t == u;
      }
    }
  }

  /** What stands still stands after an Add, unless it is a plain value at the path of a plain Add. */
  lemma AddKeepsStanding(t: Node, p: Path, v: Value, q: Path, w: Value)
    requires NormalRoot(t) && Add(t, p, v).ok && Stands(t, q, w)
    requires IsContainer(v) || IsContainer(w) || q != p
    ensures Stands(Add(t, p, v).tree, q, w)
  {
    if IsContainer(w) {
      AddKeepsNodes(t, p, v, q);
    } else if !IsContainer(v) {
      AddPlainLook(t, p, v, q);
    } else {
      AddContainerLook(t, p, v, q);
      AddContainerRefinesMap(t, p, v, "", v);
      AbsLook(t);
    }
  }

  /** Other calls keep their footing when an Add succeeds at `p`, unless it is plain and they rely on
      a plain value inserted at `p`. */
  lemma AddKeepsThread(t: Node, p: Path, v: Value, th: Thread)
    requires NormalRoot(t) && Add(t, p, v).ok && ThreadOk(t, th)
    requires th.Running? && th.op.AddOp? && th.lin.Some? && !th.pc.Unwind? ==>
               IsContainer(v) || IsContainer(th.op.v) || th.op.path != p
    ensures ThreadOk(Add(t, p, v).tree, th)
  {
    if th.Running? && th.op.AddOp? {
      var q := th.op.path;
      if Stands(t, q, th.op.v) && (IsContainer(v) || IsContainer(th.op.v) || q != p) {
        AddKeepsStanding(t, p, v, q, th.op.v);
      }
      hide Stands, Add;
      forall d | 0 <= d <= |q| && Get(t, q[..d]).Some?
        ensures Get(Add(t, p, v).tree, q[..d]).Some?
      {
        AddKeepsNodes(t, p, v, q[..d]);
      }
      assert q[..|q|] == q;
    } else if th.Running? {
      assert Get(Add(t, p, v).tree, []).Some?;
    }
  }

  /** Under the root's writer lock no other call holds a lock. */
  lemma {:induction false} DeletingAlone(s: Good, t: nat, u: nat)
    requires t in s.threads && u in s.threads && t != u
    requires s.threads[t].Running? && s.threads[t].pc.Deleting?
    ensures s.threads[u].Running? ==> s.threads[u].held == []
  {
    hide Inv;
    Footing(s, t);
    Apart(s, t, u);
    assert HeldAt(s.threads[t], []) == Some(W);
    assert HeldAt(s.threads[u], []).None?;
  }

  /** An Add call takes a lock. */
  lemma LockStep(s: Good, t: nat, th': Thread, m: Mode) returns (s': Good)
    requires t in s.threads && s.threads[t].Running? && th'.Running?
    requires th'.op == s.threads[t].op && th'.lin == s.threads[t].lin && th'.held == s.threads[t].held + [m]
    requires |s.threads[t].held| <= |OpPath(th'.op)|
    requires if m == W then FreeToWrite(s, t, OpPath(th'.op)[..|s.threads[t].held|])
             else FreeToRead(s, t, OpPath(th'.op)[..|s.threads[t].held|])
    requires ThreadOk(s.tree, th')
    ensures s' == Move(s, t, th')
  {
    hide ThreadOk, Exclusive, Inv;
    forall u | u in s.threads && u != t
      ensures Exclusive(th', s.threads[u]) && Exclusive(s.threads[u], th')
    {
      Apart(s, t, u);
      Apart(s, u, t);
      OneMoreLock(s, t, s.threads[t], th', m, u);
    }
    s' := MoveKeepsInv(s, t, th');
  }

  /** A call goes on with the locks it has, or gives some up. */
  lemma StayStep(s: Good, t: nat, th': Thread) returns (s': Good)
    requires t in s.threads
    requires th'.op == s.threads[t].op && Logged(th') == Logged(s.threads[t])
    requires th'.Running? ==> (s.threads[t].Running? && th'.held <= s.threads[t].held) || th'.held == []
    requires ThreadOk(s.tree, th')
    ensures s' == Move(s, t, th')
  {
    hide ThreadOk, Exclusive, Inv;
    forall u | u in s.threads && u != t
      ensures Exclusive(th', s.threads[u]) && Exclusive(s.threads[u], th')
    {
      Apart(s, t, u);
      Apart(s, u, t);
      FewerLocks(s.threads[t], th', s.threads[u]);
    }
    s' := MoveKeepsInv(s, t, th');
  }

  /** An Add call fails below a leaf, where it stands. */
  lemma FailStep(s: Good, t: nat, d: nat) returns (s': Good)
    requires t in s.threads && s.threads[t].Running? && s.threads[t].op.AddOp?
    requires s.threads[t].pc == Reading(d) || s.threads[t].pc == Writing(d)
    requires d < |s.threads[t].op.path|
    requires Get(s.tree, s.threads[t].op.path[..d]).Some? && Get(s.tree, s.threads[t].op.path[..d]).value.Leaf?
    ensures s' == Effect(s, t, s.threads[t].(pc := Unwind(false), lin := Some(false)), s.tree, false)
  {
    hide Inv;
    var th := s.threads[t];
    var p := th.op.path;
    Footing(s, t);
    BelowLeafFails(s.tree, p, d, th.op.v);
    LeafStops(s.tree, p[..d], p);
    assert ProperPrefix(p[..d], p);
    s' := SameTreeEffect(s, t, th.(pc := Unwind(false), lin := Some(false)));
  }

  /** A call fails without touching the tree. */
  lemma SameTreeEffect(s: Good, t: nat, th: Thread) returns (s': Good)
    requires t in s.threads && s.threads[t].Running? && s.threads[t].lin.None?
    requires th == s.threads[t].(pc := Unwind(false), lin := Some(false)) && th.op.AddOp?
    requires Add(s.tree, th.op.path, th.op.v) == Added(s.tree, false)
    ensures s' == Effect(s, t, th, s.tree, false)
  {
    hide Add;
    s' := EffectKeepsInv(s, t, th, s.tree, false);
  }

  /** The insertion of slowAdd. */
  lemma InsertStep(s: Good, t: nat, d: nat) returns (s': Good)
    requires t in s.threads && s.threads[t].Running? && s.threads[t].op.AddOp?
    requires s.threads[t].pc == Writing(d) && d < |s.threads[t].op.path|
    requires Get(s.tree, s.threads[t].op.path[..d]).Some?
    requires !Get(s.tree, s.threads[t].op.path[..d]).value.Leaf?
    requires s.threads[t].op.path[d] !in Children(Get(s.tree, s.threads[t].op.path[..d]).value)
    ensures s' == Act(s, t)
  {
    var th := s.threads[t];
    var p, v := th.op.path, th.op.v;
    var tree' := Add(s.tree, p, v).tree;
    InsertIsAdd(s.tree, p, d, v);
    AddNormal(s.tree, p, v);
    if !IsContainer(v) { AddPlainLook(s.tree, p, v, p); }
    AddedNodeExists(s.tree, p, v);
    GetStep(s.tree, p, d);
    if Get(s.tree, p).Some? { PrefixExists(s.tree, p, d + 1); }
    forall u | u in s.threads && u != t ensures ThreadOk(tree', s.threads[u]) {
      AddKeepsThread(s.tree, p, v, s.threads[u]);
    }
    var th' := th.(pc := Enter(d + 1), lin := Some(true));
    PrefixExists(tree', p, d + 1);
    assert W in th'.held;
    s' := EffectKeepsInv(s, t, th', tree', true);
  }

  /** The write of terminalAdd. */
  lemma WriteStep(s: Good, t: nat) returns (s': Good)
    requires t in s.threads && s.threads[t].Running? && s.threads[t].op.AddOp?
    requires s.threads[t].pc.AtLeaf?
    ensures s' == Act(s, t)
  {
    hide Inv;
    var th := s.threads[t];
    var p, v := th.op.path, th.op.v;
    var a := Add(s.tree, p, v);
    Footing(s, t);
    WriteIsAdd(s.tree, p, v);
    if th.lin.Some? {
      SetSame(s.tree, p);
      assert a == Added(s.tree, true);
      s' := StayStep(s, t, th.(pc := Unwind(true)));
    } else {
      TreeNormal(s);
      AddNormal(s.tree, p, v);
      WriteKeepsOthers(s, t);
      s' := FirstWrite(s, t, a.tree, a.ok);
    }
  }

  /** terminalAdd takes effect. */
  lemma FirstWrite(s: Good, t: nat, tree: Node, ok: bool) returns (s': Good)
    requires t in s.threads && s.threads[t].Running? && s.threads[t].op.AddOp?
    requires s.threads[t].lin.None? && NormalRoot(tree)
    requires |s.threads[t].held| <= |s.threads[t].op.path| + 1
    requires Add(s.tree, s.threads[t].op.path, s.threads[t].op.v) == Added(tree, ok)
    requires forall u | u in s.threads && u != t :: ThreadOk(tree, s.threads[u])
    ensures s' == Effect(s, t, s.threads[t].(pc := Unwind(ok), lin := Some(ok)), tree, ok)
  {
    hide Add, Inv;
    Footing(s, t);
    s' := EffectKeepsInv(s, t, s.threads[t].(pc := Unwind(ok), lin := Some(ok)), tree, ok);
  }

  lemma WriteKeepsOthers(s: Good, t: nat)
    requires t in s.threads && s.threads[t].Running? && s.threads[t].op.AddOp?
    requires s.threads[t].pc.AtLeaf?
    ensures forall u | u in s.threads && u != t ::
              ThreadOk(Add(s.tree, s.threads[t].op.path, s.threads[t].op.v).tree, s.threads[u])
  {
    hide Inv;
    var th := s.threads[t];
    var p, v := th.op.path, th.op.v;
    Footing(s, t);
    TreeNormal(s);
    FailedAdd(s.tree, p, v);
    hide Add;
    forall u | u in s.threads && u != t ensures ThreadOk(Add(s.tree, p, v).tree, s.threads[u]) {
      hide ThreadOk, Exclusive;
      Footing(s, u);
      Apart(s, u, t);
      if Add(s.tree, p, v).ok {
        WriterExcludesInserter(th, s.threads[u], s.tree);
        AddKeepsThread(s.tree, p, v, s.threads[u]);
      }
    }
  }

  /** A call that has inserted at a path keeps every other call away from that path. */
  lemma WriterExcludesInserter(th: Thread, other: Thread, tree: Node)
    requires th.Running? && th.op.AddOp? && |th.held| == |th.op.path| + 1
    requires Exclusive(other, th) && ThreadOk(tree, other)
    ensures other.Running? && other.op.AddOp? && other.lin.Some? && !other.pc.Unwind?
            ==> other.op.path != th.op.path
  {
    if other.Running? && other.op.AddOp? && other.op.path == th.op.path {
      forall j | 0 <= j < |other.held| ensures other.held[j] != W {
        var q := th.op.path[..j];
        assert HeldAt(other, q) == Some(other.held[j]) && HeldAt(th, q).Some?;
      }
    }
  }

  /** DeleteConditional takes effect alone on the tree. */
  lemma DeleteStep(s: Good, t: nat) returns (s': Good)
    requires t in s.threads && s.threads[t].Running? && s.threads[t].op.DelOp? && s.threads[t].pc.Deleting?
    requires s.threads[t].lin.None?
    ensures s' == Act(s, t)
  {
    hide Inv, InternalDelete, DeleteConditional;
    var th := s.threads[t];
    Footing(s, t);
    TreeNormal(s);
    Globs.DeleteRefinesFilter(s.tree, th.op.glob, th.op.cond);
    var tree' := DeleteConditional(s.tree, th.op.glob, th.op.cond);
    OthersOutside(s, t, tree');
    s' := EffectKeepsInv(s, t, th.(pc := Unwind(true), lin := Some(true)), tree', true);
  }

  lemma OthersOutside(s: Good, t: nat, tree': Node)
    requires t in s.threads && s.threads[t].Running? && s.threads[t].pc.Deleting?
    ensures forall u | u in s.threads && u != t :: ThreadOk(tree', s.threads[u])
  {
    hide Inv, ThreadOk;
    forall u | u in s.threads && u != t ensures ThreadOk(tree', s.threads[u]) {
      DeletingAlone(s, t, u);
      Footing(s, u);
      OutsideKeepsFooting(s.tree, tree', s.threads[u]);
    }
  }

  /** A call without locks is at the root or done, and does not depend on the tree. */
  lemma OutsideKeepsFooting(tree: Node, tree': Node, th: Thread)
    requires ThreadOk(tree, th) && (th.Running? ==> th.held == [])
    ensures ThreadOk(tree', th)
  {
    if th.Running? {
      assert OpPath(th.op)[..0] == [];
      assert Get(tree', []).Some?;
    }
  }

  /** A call looks for the child it wants under the reader lock. */
  lemma ReadStep(s: Good, t: nat, d: nat) returns (s': Good)
    requires t in s.threads && s.threads[t].Running? && s.threads[t].op.AddOp?
    requires s.threads[t].pc == Reading(d)
    ensures s' == Act(s, t)
  {
    hide Inv;
    Footing(s, t);
    var th := s.threads[t];
    var p := th.op.path;
    var n := Get(s.tree, p[..d]).value;
    GetStep(s.tree, p, d);
    if n.Leaf? {
      s' := FailStep(s, t, d);
    } else if p[d] in Children(n) {
      s' := StayStep(s, t, th.(pc := Enter(d + 1)));
    } else {
      if Get(s.tree, p).Some? { PrefixExists(s.tree, p, d + 1); }
      s' := StayStep(s, t, th.(pc := Upgrading(d)));
    }
  }

  /** slowAdd looks again under the writer lock, and inserts only if the child is still missing. */
  lemma RecheckStep(s: Good, t: nat, d: nat) returns (s': Good)
    requires t in s.threads && s.threads[t].Running? && s.threads[t].op.AddOp?
    requires s.threads[t].pc == Writing(d)
    ensures s' == Act(s, t)
  {
    hide Inv;
    Footing(s, t);
    var th := s.threads[t];
    var p := th.op.path;
    var n := Get(s.tree, p[..d]).value;
    GetStep(s.tree, p, d);
    if n.Leaf? {
      s' := FailStep(s, t, d);
    } else if p[d] in Children(n) {
      s' := StayStep(s, t, th.(pc := Enter(d + 1)));
    } else {
      s' := InsertStep(s, t, d);
    }
  }

  /** An Add call locks the node it has come to. */
  lemma EnterStep(s: Good, t: nat, d: nat) returns (s': Good)
    requires t in s.threads && s.threads[t].Running? && s.threads[t].op.AddOp?
    requires s.threads[t].pc == Enter(d)
    ensures s' == Act(s, t)
  {
    hide Inv, FreeToRead, FreeToWrite;
    Footing(s, t);
    var th := s.threads[t];
    var p := th.op.path;
    s' := s;
    if d < |p| {
      if FreeToRead(s, t, p[..d]) { s' := LockStep(s, t, th.(pc := Reading(d), held := th.held + [R]), R); }
    } else {
      assert p[..d] == p;
      if FreeToWrite(s, t, p) { s' := LockStep(s, t, th.(pc := AtLeaf, held := th.held + [W]), W); }
    }
  }

  /** An Add call gives its last lock up, or takes the writer lock instead. */
  lemma UnlockStep(s: Good, t: nat) returns (s': Good)
    requires t in s.threads && s.threads[t].Running? && s.threads[t].op.AddOp?
    requires s.threads[t].pc.Upgrading? || s.threads[t].pc.Gap? || s.threads[t].pc.Unwind?
    ensures s' == Act(s, t)
  {
    hide Inv, FreeToRead, FreeToWrite;
    Footing(s, t);
    var th := s.threads[t];
    var Running(op, pc, held, lin) := th;
    s' := s;
    match pc
    case Upgrading(d) => s' := StayStep(s, t, th.(pc := Gap(d), held := held[..|held| - 1]));
    case Gap(d) =>
      if FreeToWrite(s, t, op.path[..d]) { s' := LockStep(s, t, th.(pc := Writing(d), held := held + [W]), W); }
    case Unwind(ok) =>
      if held == [] { s' := StayStep(s, t, Finished(op, ok)); }
      else { s' := StayStep(s, t, th.(held := held[..|held| - 1])); }
  }

  /** Every access of an Add call keeps the invariant. */
  lemma ActAddKeepsInv(s: Good, t: nat) returns (s': Good)
    requires t in s.threads && s.threads[t].Running? && s.threads[t].op.AddOp?
    ensures s' == Act(s, t)
  {
    hide Inv, Act;
    Footing(s, t);
    match s.threads[t].pc
    case Enter(d) => s' := EnterStep(s, t, d);
    case Reading(d) => s' := ReadStep(s, t, d);
    case Writing(d) => s' := RecheckStep(s, t, d);
    case AtLeaf => s' := WriteStep(s, t);
    case Deleting => assert false;
    case _ => s' := UnlockStep(s, t);
  }

  /** Every access of a DeleteConditional call keeps the invariant. */
  lemma ActDeleteKeepsInv(s: Good, t: nat) returns (s': Good)
    requires t in s.threads && s.threads[t].Running? && s.threads[t].op.DelOp?
    ensures s' == Act(s, t)
  {
    hide Inv, FreeToWrite;
    Footing(s, t);
    var th := s.threads[t];
    s' := s;
    match th.pc
    case Enter(_) =>
      if FreeToWrite(s, t, []) { s' := LockStep(s, t, th.(pc := Deleting, held := th.held + [W]), W); }
    case Deleting => s' := DeleteStep(s, t);
    case Unwind(ok) =>
      if th.held == [] { s' := StayStep(s, t, Finished(th.op, ok)); }
      else { s' := StayStep(s, t, th.(held := [])); }
    case _ =>
  }

  /** Every access of every call keeps the invariant. */
  lemma ActKeepsInv(s: Good, t: nat) returns (s': Good)
    ensures s' == Act(s, t)
  {
    hide Inv;
    s' := s;
    if t in s.threads {
      Footing(s, t);
      match s.threads[t]
      case Ready(op) =>
        assert Get(s.tree, OpPath(op)[..0]).Some?;
        s' := StayStep(s, t, Running(op, Enter(0), [], None));
      case Finished(_, _) =>
      case Running(op, _, _, _) =>
        if op.AddOp? { s' := ActAddKeepsInv(s, t); } else { s' := ActDeleteKeepsInv(s, t); }
    }
  }

  // ---------------------------------------------------------------- main results

  lemma InitGood(tree: Node, ops: map<nat, Op>) returns (s: Good)
    requires NormalRoot(tree)
    ensures s == Init(tree, ops)
  {
    hide NormalRoot;
    s := Init(tree, ops);
  }

  lemma {:induction false} RunKeepsInv(tree: Node, ops: map<nat, Op>, schedule: seq<nat>) returns (s: Good)
    requires NormalRoot(tree)
    ensures s == Run(Init(tree, ops), schedule) && s.init == tree
    decreases |schedule|
  {
    hide Inv;
    if schedule == [] {
      s := InitGood(tree, ops);
    } else {
      s := RunKeepsInv(tree, ops, schedule[..|schedule| - 1]);
      s := ActKeepsInv(s, schedule[|schedule| - 1]);
    }
  }

  /** A finished call is in the log, a call that has not started comes later. */
  lemma FinishedFirst(s: Good, log: seq<Event>, a: nat, b: nat)
    requires s.log <= log && a in s.threads && b in s.threads
    requires s.threads[a].Finished? && s.threads[b].Ready?
    requires forall i, j | 0 <= i < j < |log| :: log[i].t != log[j].t
    ensures exists i :: 0 <= i < |log| && log[i].t == a
    ensures forall i, j | 0 <= i < |log| && 0 <= j < |log| && log[i].t == a && log[j].t == b :: i < j
  {
    assert Logged(s.threads[a]).Some?;
    var k :| 0 <= k < |s.log| && s.log[k].t == a;
    assert log[k].t == a;
    assert forall i | 0 <= i < |s.log| :: s.log[i] == log[i] && s.log[i].t != b;
  }

  // ---------------------------------------------------------------- progress

  function Depth(th: Thread): int {
    if th.Running? then |th.held| else -1
  }

  lemma {:induction false} DeepestCall(threads: map<nat, Thread>, among: set<nat>) returns (t: nat)
    requires among != {} && among <= threads.Keys
    ensures t in among && forall u | u in among :: Depth(threads[u]) <= Depth(threads[t])
    decreases among
  {
    var a :| a in among;
    if among == {a} {
      t := a;
    } else {
      t := DeepestCall(threads, among - {a});
      if Depth(threads[t]) < Depth(threads[a]) { t := a; }
    }
  }

  /** A running call that holds at least as many locks as any other can act. */
  lemma DeepestActs(s: Good, t: nat)
    requires t in s.threads && s.threads[t].Running?
    requires forall u | u in s.threads :: Depth(s.threads[u]) <= Depth(s.threads[t])
    ensures Act(s, t) != s
  {
    hide Inv;
    Footing(s, t);
    var th := s.threads[t];
    var q := OpPath(th.op)[..if th.pc.Enter? || th.pc.Gap? then th.pc.d else 0];
    if th.pc.Enter? || th.pc.Gap? {
      forall u | u in s.threads ensures HeldAt(s.threads[u], q).None? {
        assert Depth(s.threads[u]) <= |th.held|;
      }
      assert FreeToWrite(s, t, q) && FreeToRead(s, t, q);
    }
    assert Act(s, t).threads[t] != th;
  }
}
