/** What any notification, with several updates and deletes or as an atomic group, adds to the
    counters and to the feed, and when it is an error. */
module Tally {
  import opened Gnmi
  import opened PathTree
  import opened TargetSpec
  import opened TargetRuns
  import opened Accounting
  import S = Splitting

  /** The update number `k`, counted from one, when its turn comes. */
  function Turn(lib: Lib, st: State, n: Notification, k: nat): Updated
    requires NotiOk(lib, n) && !n.atomic && 0 < k <= |n.updates|
  {
    assert n.updates[k - 1] in n.updates;
    UpdateOne(lib, UpdateAll(lib, st, n, k - 1).st, OnlyUpdate(n, n.updates[k - 1]))
  }

  lemma TurnIsNext(lib: Lib, st: State, n: Notification, k: nat)
    requires NotiOk(lib, n) && !n.atomic && 0 < k <= |n.updates|
    ensures var r, u := UpdateAll(lib, st, n, k - 1), Turn(lib, st, n, k);
            UpdateAll(lib, st, n, k) == Response(Tell(u, 1), r.ok && !u.outcome.IsError())
  {
    hide UpdateOne;
  }

  /** The outcomes of the first `k` updates, each at its turn. */
  function FirstOutcomes(lib: Lib, st: State, n: Notification, k: nat): seq<Outcome>
    requires NotiOk(lib, n) && !n.atomic && k <= |n.updates|
  {
    if k == 0 then []
    else FirstOutcomes(lib, st, n, k - 1) + [Turn(lib, st, n, k).outcome]
  }

  /** The outcomes of all updates; an atomic group has one, and none if it is empty or has deletes. */
  function Outcomes(lib: Lib, st: State, n: Notification): seq<Outcome>
    requires NotiOk(lib, n)
  {
    var st1 := CheckTimestamp(st, n.ts);
    if !n.atomic then FirstOutcomes(lib, st1, n, |n.updates|)
    else if n.deletes == [] && n.updates != [] then [UpdateOne(lib, st1, n).outcome]
    else []
  }

  lemma OutcomesNext(lib: Lib, st: State, n: Notification, k: nat)
    requires NotiOk(lib, n) && !n.atomic && 0 < k <= |n.updates|
    ensures var os, o := FirstOutcomes(lib, st, n, k - 1), Turn(lib, st, n, k).outcome;
            && FirstOutcomes(lib, st, n, k) == os + [o]
            && Notifieds(os + [o]) == Notifieds(os) + (if o.Notified? then 1 else 0)
  {
    hide Turn;
    OutcomesMore(FirstOutcomes(lib, st, n, k - 1), Turn(lib, st, n, k).outcome);
  }

  ghost predicate NoError(os: seq<Outcome>) {
    forall o | o in os :: o.Notified? || o.Suppressed? || o.Collision?
  }

  ghost predicate CountsOf(a: State, b: State, os: seq<Outcome>, updates: int) {
    && Count(b, UpdateCount) == Count(a, UpdateCount) + updates
    && Count(b, SuppressedCount) == Count(a, SuppressedCount) + Suppresseds(os)
    && Count(b, StaleCount) == Count(a, StaleCount) + Stales(os)
    && Count(b, EmptyCount) == Count(a, EmptyCount)
    && |b.feed| == |a.feed| + Notifieds(os)
  }

  lemma OutcomesMore(os: seq<Outcome>, o: Outcome)
    ensures Notifieds(os + [o]) == Notifieds(os) + (if o.Notified? then 1 else 0)
    ensures Suppresseds(os + [o]) == Suppresseds(os) + (if o.Suppressed? then 1 else 0)
    ensures Stales(os + [o]) == Stales(os) + (if o.Stale? then 1 else 0)
  {
    assert (os + [o])[..|os|] == os;
  }

  lemma OneOutcome(o: Outcome)
    ensures Notifieds([o]) == if o.Notified? then 1 else 0
    ensures Suppresseds([o]) == if o.Suppressed? then 1 else 0
    ensures Stales([o]) == if o.Stale? then 1 else 0
  {
    OutcomesMore([], o);
    assert [] + [o] == [o];
  }

  lemma OneCounts(lib: Lib, st: State, n: Notification, k: int)
    requires |n.updates| > 0 && PathOk(JoinUpdate(lib, n))
    ensures var u := UpdateOne(lib, st, n);
            CountsOf(st, Tell(u, k), [u.outcome], if u.outcome.Notified? then k else 0)
  {
    var u := UpdateOne(lib, st, n);
    OneOutcome(u.outcome);
    UpdateCredits(lib, st, n, UpdateCount);
    UpdateCredits(lib, st, n, SuppressedCount);
    UpdateCredits(lib, st, n, StaleCount);
    UpdateCredits(lib, st, n, EmptyCount);
    hide UpdateOne;
  }

  lemma NothingCounts(st: State)
    ensures CountsOf(st, st, [], 0)
  {
  }

  lemma CountsJoin(a: State, b: State, c: State, os: seq<Outcome>, o: Outcome, i: int, j: int)
    requires CountsOf(a, b, os, i) && CountsOf(b, c, [o], j)
    ensures CountsOf(a, c, os + [o], i + j)
  {
    OutcomesMore(os, o);
    OneOutcome(o);
  }

  lemma {:induction false} UpdatesCount(lib: Lib, st: State, n: Notification, k: nat)
    requires NotiOk(lib, n) && !n.atomic && k <= |n.updates|
    ensures var os := FirstOutcomes(lib, st, n, k); CountsOf(st, UpdateAll(lib, st, n, k).st, os, Notifieds(os))
    decreases k
  {
    hide Turn, CountsOf, Tell, NotiOk, UpdateOne;
    if k > 0 {
      hide UpdateAll, FirstOutcomes, Notifieds;
      UpdatesCount(lib, st, n, k - 1);
      var st1, os, u := UpdateAll(lib, st, n, k - 1).st, FirstOutcomes(lib, st, n, k - 1), Turn(lib, st, n, k);
      TurnIsNext(lib, st, n, k);
      TurnCounts(lib, st, n, k);
      CountsJoin(st, st1, Tell(u, 1), os, u.outcome, Notifieds(os), if u.outcome.Notified? then 1 else 0);
      OutcomesNext(lib, st, n, k);
    } else {
      NothingCounts(st);
    }
  }

  lemma {:induction false} UpdatesFail(lib: Lib, st: State, n: Notification, k: nat)
    requires NotiOk(lib, n) && !n.atomic && k <= |n.updates|
    ensures UpdateAll(lib, st, n, k).ok <==> NoError(FirstOutcomes(lib, st, n, k))
    decreases k
  {
    if k > 0 {
      hide UpdateAll, Turn, Tell, NotiOk;
      UpdatesFail(lib, st, n, k - 1);
      TurnIsNext(lib, st, n, k);
      assert Turn(lib, st, n, k).outcome in FirstOutcomes(lib, st, n, k);
    }
  }

  lemma TurnCounts(lib: Lib, st: State, n: Notification, k: nat)
    requires NotiOk(lib, n) && !n.atomic && 0 < k <= |n.updates|
    ensures var u := Turn(lib, st, n, k);
            CountsOf(UpdateAll(lib, st, n, k - 1).st, Tell(u, 1), [u.outcome], if u.outcome.Notified? then 1 else 0)
  {
    hide UpdateOne, CountsOf, Tell;
    assert n.updates[k - 1] in n.updates;
    OneCounts(lib, UpdateAll(lib, st, n, k - 1).st, OnlyUpdate(n, n.updates[k - 1]), 1);
  }

  /** Deletes of real data are counted as updates and change nothing else. */
  lemma {:induction false} DeletesCount(lib: Lib, st: State, n: Notification, k: nat)
    requires NotiOk(lib, n) && !n.atomic && k <= |n.deletes|
    requires forall d | d in n.deletes :: IsReal(n.prefix + lib.flat(d))
    ensures CountsOf(st, RemoveAll(lib, st, n, k), [], k)
    decreases k
  {
    hide DeleteConditional;
    if k > 0 {
      DeletesCount(lib, st, n, k - 1);
      assert n.deletes[k - 1] in n.deletes;
    }
  }

  lemma GroupCounted(lib: Lib, st: State, n: Notification)
    requires NotiOk(lib, n) && n.atomic
    ensures var r, os := GnmiUpdate(lib, st, n), Outcomes(lib, st, n);
            && Count(r.st, UpdateCount) == Count(st, UpdateCount) + Notifieds(os) * |n.updates|
            && Count(r.st, SuppressedCount) == Count(st, SuppressedCount) + Suppresseds(os)
            && Count(r.st, StaleCount) == Count(st, StaleCount) + Stales(os)
            && Count(r.st, EmptyCount) == Count(st, EmptyCount) + (if n.updates == [] && n.deletes == [] then 1 else 0)
            && |r.st.feed| == |st.feed| + Notifieds(os)
            && (r.ok <==> NoError(os) && n.deletes == [])
  {
    var st1 := CheckTimestamp(st, n.ts);
    if n.deletes == [] && n.updates != [] {
      OneCounts(lib, st1, n, |n.updates|);
      OneOutcome(UpdateOne(lib, st1, n).outcome);
    }
    hide UpdateOne;
  }

  /** Any notification without deletes in the metadata: every update is counted in the place that its
      outcome says, an accepted group by its size, each delete as an update, an empty notification as
      such; the client is called once for each update that is notified; and the result is an error
      exactly when some update fails or a group has deletes. */
  lemma NotificationCounted(lib: Lib, st: State, n: Notification)
    requires NotiOk(lib, n) && forall d | d in n.deletes :: IsReal(n.prefix + lib.flat(d))
    ensures var r, os := GnmiUpdate(lib, st, n), Outcomes(lib, st, n);
            && Count(r.st, UpdateCount) == Count(st, UpdateCount)
                 + (if n.atomic then Notifieds(os) * |n.updates| else Notifieds(os) + |n.deletes|)
            && Count(r.st, SuppressedCount) == Count(st, SuppressedCount) + Suppresseds(os)
            && Count(r.st, StaleCount) == Count(st, StaleCount) + Stales(os)
            && Count(r.st, EmptyCount) == Count(st, EmptyCount) + (if n.updates == [] && n.deletes == [] then 1 else 0)
            && |r.st.feed| == |st.feed| + Notifieds(os)
            && (r.ok <==> NoError(os) && !(n.atomic && n.deletes != []))
  {
    var st1 := CheckTimestamp(st, n.ts);
    if n.atomic {
      GroupCounted(lib, st, n);
      hide GnmiUpdate, Outcomes, UpdateOne;
    } else if n.updates == [] && n.deletes == [] {
      assert GnmiUpdate(lib, st, n) == Response(AddInt(st1, EmptyCount, 1), true);
    } else {
      S.GnmiUpdateSplits(lib, st, n);
      UpdatesCount(lib, st1, n, |n.updates|);
      UpdatesFail(lib, st1, n, |n.updates|);
      DeletesCount(lib, UpdateAll(lib, st1, n, |n.updates|).st, n, |n.deletes|);
      hide GnmiUpdate, UpdateAll, RemoveAll, UpdateOne, FirstOutcomes;
    }
  }

  // ---------------------------------------------------------------- new leaves

  lemma {:induction false} AddsAreLeaves(lib: Lib, st: State, n: Notification, k: nat)
    requires NotiOk(lib, n) && !n.atomic && k <= |n.updates|
    ensures var st' := UpdateAll(lib, st, n, k).st;
            Count(st', AddCount) - Count(st, AddCount) == Count(st', LeafCount) - Count(st, LeafCount)
    decreases k
  {
    if k > 0 {
      AddsAreLeaves(lib, st, n, k - 1);
      assert n.updates[k - 1] in n.updates;
      UpdateCredits(lib, UpdateAll(lib, st, n, k - 1).st, OnlyUpdate(n, n.updates[k - 1]), AddCount);
      UpdateCredits(lib, UpdateAll(lib, st, n, k - 1).st, OnlyUpdate(n, n.updates[k - 1]), LeafCount);
      hide UpdateOne;
    }
  }

  /** Without deletes the count of added leaves grows by the number of new leaves of real data. */
  lemma NewLeavesCounted(lib: Lib, st: State, n: Notification)
    requires Counted(st) && NoDeletes(lib, n)
    ensures var st' := GnmiUpdate(lib, st, n).st;
            Count(st', AddCount) - Count(st, AddCount) == |RealLeaves(st'.tree)| - |RealLeaves(st.tree)|
  {
    var st1 := CheckTimestamp(st, n.ts);
    NotifyCounts(lib, st, n);
    hide RealLeaves, UpdateOne, TreeOk;
    if n.atomic {
      if n.updates != [] {
        UpdateCredits(lib, st1, n, AddCount);
        UpdateCredits(lib, st1, n, LeafCount);
      }
    } else if n.updates != [] {
      S.GnmiUpdateSplits(lib, st, n);
      AddsAreLeaves(lib, st1, n, |n.updates|);
      hide GnmiUpdate, UpdateAll;
    }
  }
}
