/** A notification with several updates and deletes, against the single ones it is made of. */
module Splitting {
  import opened Gnmi
  import opened PathTree
  import opened Globs
  import opened TargetSpec
  import opened TargetRuns

  /** Sends notifications one after the other; the result is good if every one is. */
  function SendAll(lib: Lib, st: State, ns: seq<Notification>): Response
    requires forall n | n in ns :: NotiOk(lib, n)
  {
    if ns == [] then Response(st, true)
    else
      assert ns[|ns| - 1] in ns && forall n | n in ns[..|ns| - 1] :: n in ns;
      var r := SendAll(lib, st, ns[..|ns| - 1]);
      var last := GnmiUpdate(lib, r.st, ns[|ns| - 1]);
      Response(last.st, r.ok && last.ok)
  }

  function Updates(n: Notification, k: nat): seq<Notification>
    requires k <= |n.updates|
  {
    seq(k, i requires 0 <= i < k => OnlyUpdate(n, n.updates[i]))
  }

  function Deletes(n: Notification, k: nat): seq<Notification>
    requires k <= |n.deletes|
  {
    seq(k, i requires 0 <= i < k => OnlyDelete(n, n.deletes[i]))
  }

  lemma SendOneMore(lib: Lib, st: State, ns: seq<Notification>, n: Notification)
    requires (forall x | x in ns :: NotiOk(lib, x)) && NotiOk(lib, n)
    ensures forall x | x in ns + [n] :: NotiOk(lib, x)
    ensures var r := SendAll(lib, st, ns);
            var last := GnmiUpdate(lib, r.st, n);
            SendAll(lib, st, ns + [n]) == Response(last.st, r.ok && last.ok)
  {
    assert (ns + [n])[..|ns|] == ns;
  }

  lemma SinglesOk(lib: Lib, n: Notification)
    requires NotiOk(lib, n) && !n.atomic
    ensures forall u | u in n.updates :: NotiOk(lib, OnlyUpdate(n, u))
    ensures forall d | d in n.deletes :: NotiOk(lib, OnlyDelete(n, d))
  {
  }

  /** The target has seen the timestamp. */
  predicate Seen(st: State, ts: int) {
    st.ts.Some? && ts <= st.ts.value
  }

  lemma TellKeepsTs(lib: Lib, st: State, n: Notification, k: int)
    requires |n.updates| > 0 && PathOk(JoinUpdate(lib, n))
    ensures Tell(UpdateOne(lib, st, n), k).ts == st.ts
  {
    UpdateCredits(lib, st, n, UpdateCount);
    hide UpdateOne;
  }

  lemma {:induction false} UpdatesSplit(lib: Lib, st: State, n: Notification, k: nat)
    requires NotiOk(lib, n) && !n.atomic && k <= |n.updates|
    requires forall x | x in Updates(n, k) :: NotiOk(lib, x)
    ensures var r := UpdateAll(lib, CheckTimestamp(st, n.ts), n, k);
            && Seen(r.st, n.ts)
            && (k > 0 ==> SendAll(lib, st, Updates(n, k)) == r)
    decreases k
  {
    if k > 0 {
      assert Updates(n, k) == Updates(n, k - 1) + [OnlyUpdate(n, n.updates[k - 1])];
      UpdatesSplit(lib, st, n, k - 1);
      var one := OnlyUpdate(n, n.updates[k - 1]);
      var r := UpdateAll(lib, CheckTimestamp(st, n.ts), n, k - 1);
      SinglesOk(lib, n);
      SendOneMore(lib, st, Updates(n, k - 1), one);
      TellKeepsTs(lib, r.st, one, 1);
      hide UpdateOne, Tell, NotiOk;
    }
  }

  lemma {:induction false} DeletesSplit(lib: Lib, st: State, before: seq<Notification>, n: Notification, k: nat)
    requires NotiOk(lib, n) && !n.atomic && k <= |n.deletes|
    requires (forall x | x in before :: NotiOk(lib, x)) && forall x | x in before + Deletes(n, k) :: NotiOk(lib, x)
    requires Seen(SendAll(lib, st, before).st, n.ts) || before == []
    ensures var r := SendAll(lib, st, before);
            var st1 := CheckTimestamp(r.st, n.ts);
            && Seen(RemoveAll(lib, st1, n, k), n.ts)
            && (k > 0 || before != [] ==>
                SendAll(lib, st, before + Deletes(n, k)) == Response(RemoveAll(lib, st1, n, k), r.ok))
    decreases k
  {
    hide GnmiUpdate, UpdateOne, Remove, AddInt;
    var st1 := CheckTimestamp(SendAll(lib, st, before).st, n.ts);
    if k == 0 {
      assert before + Deletes(n, 0) == before;
    } else {
      var sent := before + Deletes(n, k - 1);
      var one := OnlyDelete(n, n.deletes[k - 1]);
      assert before + Deletes(n, k) == sent + [one];
      assert forall x | x in sent :: x in before + Deletes(n, k);
      DeletesSplit(lib, st, before, n, k - 1);
      SinglesOk(lib, n);
      SendOneMore(lib, st, sent, one);
      OneDelete(lib, RemoveAll(lib, st1, n, k - 1), n, k);
      if k == 1 {
        assert sent == before;
        assert CheckTimestamp(st1, n.ts) == st1;
        OneDelete(lib, SendAll(lib, st, before).st, n, k);
      }
      hide NotiOk, SendAll, Seen, JoinDelete, PathOk;
    }
  }

  /** One single delete. */
  lemma OneDelete(lib: Lib, st: State, n: Notification, k: nat)
    requires NotiOk(lib, n) && !n.atomic && 0 < k <= |n.deletes| && NotiOk(lib, OnlyDelete(n, n.deletes[k - 1]))
    ensures PathOk(JoinDelete(lib, OnlyDelete(n, n.deletes[k - 1])))
    ensures GnmiUpdate(lib, st, OnlyDelete(n, n.deletes[k - 1]))
         == Response(
               Remove(lib, AddInt(CheckTimestamp(st, n.ts), UpdateCount, 1), OnlyDelete(n, n.deletes[k - 1])), true)
    ensures Seen(Remove(lib, AddInt(CheckTimestamp(st, n.ts), UpdateCount, 1), OnlyDelete(n, n.deletes[k - 1])), n.ts)
    ensures Seen(st, n.ts) ==> CheckTimestamp(st, n.ts) == st
  {
    hide DeleteConditional;
    assert n.deletes[k - 1] in n.deletes;
  }

  /** A non-atomic notification acts exactly as its single updates followed by its single deletes,
      errors included: an update that fails does not stop the rest. */
  lemma NotificationSplits(lib: Lib, st: State, n: Notification)
    requires NotiOk(lib, n) && !n.atomic && |n.updates| + |n.deletes| > 0
    ensures forall x | x in Updates(n, |n.updates|) + Deletes(n, |n.deletes|) :: NotiOk(lib, x)
    ensures GnmiUpdate(lib, st, n) == SendAll(lib, st, Updates(n, |n.updates|) + Deletes(n, |n.deletes|))
  {
    SinglesOk(lib, n);
    var us, ds := Updates(n, |n.updates|), Deletes(n, |n.deletes|);
    assert forall x | x in us + ds :: NotiOk(lib, x);
    UpdatesSplit(lib, st, n, |n.updates|);
    DeletesSplit(lib, st, us, n, |n.deletes|);
    hide UpdateOne, Remove, Tell, NotiOk, SendAll;
    GnmiUpdateSplits(lib, st, n);
  }

  /** The three non-atomic branches of GnmiUpdate do the same. */
  lemma GnmiUpdateSplits(lib: Lib, st: State, n: Notification)
    requires NotiOk(lib, n) && !n.atomic && |n.updates| + |n.deletes| > 0
    ensures var r := UpdateAll(lib, CheckTimestamp(st, n.ts), n, |n.updates|);
            GnmiUpdate(lib, st, n) == Response(RemoveAll(lib, r.st, n, |n.deletes|), r.ok)
  {
    hide UpdateOne, Remove, Tell;
    var st1 := CheckTimestamp(st, n.ts);
    assert UpdateAll(lib, st1, n, 0) == Response(st1, true);
    assert RemoveAll(lib, st1, n, 0) == st1;
    if |n.updates| + |n.deletes| == 1 {
      if |n.updates| == 1 {
        assert n.updates[0] in n.updates;
        assert OnlyUpdate(n, n.updates[0]) == n by { assert n.updates == [n.updates[0]]; }
      } else {
        assert n.deletes[0] in n.deletes;
        assert OnlyDelete(n, n.deletes[0]) == n by { assert n.deletes == [n.deletes[0]]; }
      }
    }
  }

  // ---------------------------------------------------------------- updates and deletes together

  /** One of the first `k` deletes of the notification matches the path. */
  ghost predicate Deleted(lib: Lib, n: Notification, k: nat, p: Path)
    requires k <= |n.deletes|
  {
    exists i :: 0 <= i < k && DeleteMatch(n.prefix + lib.flat(n.deletes[i]), p)
  }

  /** What the first `k` deletes leave of a map. */
  ghost function Survivors(lib: Lib, n: Notification, k: nat, m: map<Path, Value>): map<Path, Value>
    requires k <= |n.deletes|
  {
    map p | p in m && !(Deleted(lib, n, k, p) && m[p].ts < n.ts) :: m[p]
  }

  lemma SurvivorsStep(lib: Lib, n: Notification, k: nat, m: map<Path, Value>)
    requires 0 < k <= |n.deletes|
    ensures Survivors(lib, n, k, m)
         == var m1 := Survivors(lib, n, k - 1, m);
            map p | p in m1 && !(DeleteMatch(n.prefix + lib.flat(n.deletes[k - 1]), p) && m1[p].ts < n.ts) :: m1[p]
  {
    OneMoreDelete(lib, n, k);
    hide Deleted, DeleteMatch;
  }

  lemma {:induction false} RemoveAllFilters(lib: Lib, st: State, n: Notification, k: nat)
    requires NotiOk(lib, n) && !n.atomic && k <= |n.deletes| && TreeOk(st.tree)
    ensures var st' := RemoveAll(lib, st, n, k);
            && TreeOk(st'.tree)
            && Abs(st'.tree) == Survivors(lib, n, k, Abs(st.tree))
    decreases k
  {
    if k == 0 {
      assert Survivors(lib, n, 0, Abs(st.tree)) == Abs(st.tree);
    } else {
      RemoveAllFilters(lib, st, n, k - 1);
      var st1 := AddInt(RemoveAll(lib, st, n, k - 1), UpdateCount, 1);
      var glob := n.prefix + lib.flat(n.deletes[k - 1]);
      assert PathOk(glob) by { assert n.deletes[k - 1] in n.deletes; }
      var st' := Remove(lib, st1, OnlyDelete(n, n.deletes[k - 1]));
      assert RemoveAll(lib, st, n, k) == st';
      RemoveFilters(lib, st1, OnlyDelete(n, n.deletes[k - 1]));
      SurvivorsStep(lib, n, k, Abs(st.tree));
      hide Survivors, Remove, RemoveAll, Abs, TreeOk, DeleteMatch, Deleted, NotiOk;
    }
  }

  lemma OneMoreDelete(lib: Lib, n: Notification, k: nat)
    requires 0 < k <= |n.deletes|
    ensures forall p :: Deleted(lib, n, k, p) <==>
              Deleted(lib, n, k - 1, p) || DeleteMatch(n.prefix + lib.flat(n.deletes[k - 1]), p)
  {
    forall p | DeleteMatch(n.prefix + lib.flat(n.deletes[k - 1]), p) ensures Deleted(lib, n, k, p) {
      assert 0 <= k - 1 < k;
    }
  }

  lemma RemoveFilters(lib: Lib, st: State, n: Notification)
    requires |n.deletes| > 0 && PathOk(JoinDelete(lib, n)) && TreeOk(st.tree)
    ensures var st' := Remove(lib, st, n);
            && TreeOk(st'.tree)
            && Abs(st'.tree) == map p | p in Abs(st.tree) &&
                    !(DeleteMatch(JoinDelete(lib, n), p) && Abs(st.tree)[p].ts < n.ts)
                                     :: Abs(st.tree)[p]
  {
    DeleteRefinesFilter(st.tree, JoinDelete(lib, n), OlderThan(n.ts));
  }

  lemma {:induction false} UpdateAllTreeOk(lib: Lib, st: State, n: Notification, k: nat)
    requires NotiOk(lib, n) && !n.atomic && k <= |n.updates| && TreeOk(st.tree)
    ensures TreeOk(UpdateAll(lib, st, n, k).st.tree)
    decreases k
  {
    if k > 0 {
      UpdateAllTreeOk(lib, st, n, k - 1);
      UpdateOneMap(lib, UpdateAll(lib, st, n, k - 1).st, OnlyUpdate(n, n.updates[k - 1]));
      hide UpdateOne, TreeOk, Abs;
    }
  }

  /** The target just before the update with index `k` of the notification. */
  function Before(lib: Lib, st: State, n: Notification, k: nat): State
    requires NotiOk(lib, n) && !n.atomic && k <= |n.updates|
  {
    UpdateAll(lib, CheckTimestamp(st, n.ts), n, k).st
  }

  /** That update is accepted when its turn comes. */
  ghost predicate Accepted(lib: Lib, st: State, n: Notification, k: nat)
    requires NotiOk(lib, n) && !n.atomic && k < |n.updates|
  {
    Writes(UpdateOne(lib, Before(lib, st, n, k), OnlyUpdate(n, n.updates[k])).outcome)
  }

  /** Where it is written. */
  ghost function WrittenAt(lib: Lib, st: State, n: Notification, k: nat): Path
    requires NotiOk(lib, n) && !n.atomic && k < |n.updates|
  {
    var u := OnlyUpdate(n, n.updates[k]);
    WriteAt(Before(lib, st, n, k).tree, JoinUpdate(lib, u), u)
  }

  /** The map holds an update of the notification at the path, of index `k` or later. */
  ghost predicate HoldsOwn(n: Notification, m: map<Path, Value>, p: Path, k: nat, upto: nat)
    requires upto <= |n.updates|
  {
    p in m && exists j | k <= j < upto :: m[p] == OnlyUpdate(n, n.updates[j])
  }

  lemma OneMoreUpdate(lib: Lib, st: State, n: Notification, k: nat)
    requires NotiOk(lib, n) && !n.atomic && k < |n.updates| && TreeOk(st.tree)
    ensures var m, m' := Abs(Before(lib, st, n, k).tree), Abs(Before(lib, st, n, k + 1).tree);
            m' == if Accepted(lib, st, n, k) then m[WrittenAt(lib, st, n, k) := OnlyUpdate(n, n.updates[k])] else m
  {
    assert n.updates[k] in n.updates;
    UpdateAllTreeOk(lib, CheckTimestamp(st, n.ts), n, k);
    UpdateOneMap(lib, Before(lib, st, n, k), OnlyUpdate(n, n.updates[k]));
    hide UpdateOne, TreeOk, Abs, WriteAt;
  }

  /** An accepted update stays until another one of the notification takes its place. */
  lemma {:induction false} OwnIsHeld(lib: Lib, st: State, n: Notification, k: nat, upto: nat)
    requires NotiOk(lib, n) && !n.atomic && k < upto <= |n.updates| && TreeOk(st.tree) && Accepted(lib, st, n, k)
    ensures HoldsOwn(n, Abs(Before(lib, st, n, upto).tree), WrittenAt(lib, st, n, k), k, upto)
    decreases upto
  {
    hide NotiOk, TreeOk, Abs, Before, Accepted, WrittenAt, OnlyUpdate;
    OneMoreUpdate(lib, st, n, upto - 1);
    if k < upto - 1 { OwnIsHeld(lib, st, n, k, upto - 1); }
  }

  /** A mixed notification: after the updates, the deletes filter out exactly the older leaves
      they match.  So what is left under a deleted path is at least as new as the notification, and
      where the notification had an update accepted, it or a later one of the notification stays. */
  lemma MixedNotification(lib: Lib, st: State, n: Notification)
    requires NotiOk(lib, n) && !n.atomic && |n.updates| + |n.deletes| > 0 && TreeOk(st.tree)
    ensures var m, m' := Abs(Before(lib, st, n, |n.updates|).tree), Abs(GnmiUpdate(lib, st, n).st.tree);
            && m' == Survivors(lib, n, |n.deletes|, m)
            && (forall p | p in m' && Deleted(lib, n, |n.deletes|, p) :: m'[p].ts >= n.ts)
            && (forall p | p in m && m[p].ts >= n.ts :: p in m' && m'[p] == m[p])
            && (forall k | 0 <= k < |n.updates| && Accepted(lib, st, n, k) ::
                  HoldsOwn(n, m', WrittenAt(lib, st, n, k), k, |n.updates|))
  {
    var mid := Before(lib, st, n, |n.updates|);
    UpdateAllTreeOk(lib, CheckTimestamp(st, n.ts), n, |n.updates|);
    RemoveAllFilters(lib, mid, n, |n.deletes|);
    GnmiUpdateSplits(lib, st, n);
    hide UpdateAll, RemoveAll, Abs, GnmiUpdate, Deleted, Accepted, WrittenAt;
    forall k | 0 <= k < |n.updates| && Accepted(lib, st, n, k)
      ensures HoldsOwn(n, Abs(mid.tree), WrittenAt(lib, st, n, k), k, |n.updates|)
    {
      OwnIsHeld(lib, st, n, k, |n.updates|);
    }
  }
}
