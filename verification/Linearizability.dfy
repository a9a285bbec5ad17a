/** What holds of every interleaving of calls on one tree. */
module Linearizability {
  import opened Gnmi
  import opened PathTree
  import opened ConcurrentTree

  /** Every interleaving of Adds and DeleteConditionals is equivalent to the
      calls run one after the other in the order of the log: that order yields the same tree,
      gives every finished call the result it returned, and names each finished call exactly once. */
  lemma {:induction false} Linearizable(tree: Node, ops: map<nat, Op>, schedule: seq<nat>)
    requires NormalRoot(tree)
    ensures var s := Run(Init(tree, ops), schedule);
            && s.tree == Replay(tree, s.log)
            && ResultsAgree(tree, s.log)
            && NormalRoot(s.tree)
            && (forall t | t in s.threads && s.threads[t].Finished? ::
                  exists i :: 0 <= i < |s.log| && s.log[i] == Event(t, s.threads[t].op, s.threads[t].ok))
            && (forall i, j | 0 <= i < j < |s.log| :: s.log[i].t != s.log[j].t)
  {
    var s := RunKeepsInv(tree, ops, schedule);
    forall t | t in s.threads && s.threads[t].Finished?
      ensures exists i :: 0 <= i < |s.log| && s.log[i] == Event(t, s.threads[t].op, s.threads[t].ok)
    {
      assert Logged(s.threads[t]).Some?;
    }
  }

  /** The log only grows. */
  lemma {:induction false} LogGrows(s: State, more: seq<nat>)
    ensures s.log <= Run(s, more).log
    decreases |more|
  {
    if more != [] { LogGrows(s, more[..|more| - 1]); }
  }

  lemma {:induction false} RunAppend(s: State, schedule: seq<nat>, more: seq<nat>)
    ensures Run(s, schedule + more) == Run(Run(s, schedule), more)
    decreases |more|
  {
    if more == [] {
      assert schedule + more == schedule;
    } else {
      var all := schedule + more;
      assert all[..|all| - 1] == schedule + more[..|more| - 1];
      RunAppend(s, schedule, more[..|more| - 1]);
    }
  }

  /** The order respects real time: a call that had returned before another one started comes
      before it. */
  lemma RealTimeOrder(tree: Node, ops: map<nat, Op>, schedule: seq<nat>, more: seq<nat>, a: nat, b: nat)
    requires NormalRoot(tree)
    requires a in ops && b in ops
    requires a in Run(Init(tree, ops), schedule).threads && b in Run(Init(tree, ops), schedule).threads
    requires Run(Init(tree, ops), schedule).threads[a].Finished?
    requires Run(Init(tree, ops), schedule).threads[b].Ready?
    ensures var log := Run(Init(tree, ops), schedule + more).log;
            && (exists i :: 0 <= i < |log| && log[i].t == a)
            && (forall i, j | 0 <= i < |log| && 0 <= j < |log| && log[i].t == a && log[j].t == b :: i < j)
  {
    hide Inv, Act, Run;
    var s := RunKeepsInv(tree, ops, schedule);
    RunAppend(Init(tree, ops), schedule, more);
    LogGrows(s, more);
    Linearizable(tree, ops, schedule + more);
    FinishedFirst(s, Run(s, more).log, a, b);
  }

  /** No deadlock: whatever the interleaving so far, as long as some call has not returned, some
      call can act. */
  lemma NoDeadlock(tree: Node, ops: map<nat, Op>, schedule: seq<nat>, t: nat)
    requires NormalRoot(tree)
    requires t in Run(Init(tree, ops), schedule).threads
    requires !Run(Init(tree, ops), schedule).threads[t].Finished?
    ensures exists u :: Act(Run(Init(tree, ops), schedule), u) != Run(Init(tree, ops), schedule)
  {
    var s := RunKeepsInv(tree, ops, schedule);
    if s.threads[t].Ready? {
      assert Act(s, t).threads[t] != s.threads[t];
      assert Act(s, t) != s;
    } else {
      var u := DeepestCall(s.threads, s.threads.Keys);
      assert Depth(s.threads[t]) <= Depth(s.threads[u]);
      DeepestActs(s, u);
      assert Act(s, u) != s;
    }
  }
}
