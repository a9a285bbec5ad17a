/** The target's own metadata: its fields hold what arrived last, whatever the timestamps; what a
    delete and a reset make of them. */
module Metadata {
  import opened Gnmi
  import opened PathTree
  import opened Globs
  import opened TargetSpec
  import opened TargetRuns
  import CF = ClientFeed

  /** The fields beside the counters, the tree and the feed. */
  ghost predicate SameFields(a: State, b: State) {
    a.sync == b.sync && a.meta.bools == b.meta.bools && a.meta.strs == b.meta.strs
  }

  /** A single update or an atomic group. */
  ghost predicate OneWrite(lib: Lib, n: Notification) {
    NotiOk(lib, n) && n.deletes == [] && |n.updates| > 0 && (n.atomic || |n.updates| == 1)
  }

  /** The notification writes the metadata entry. */
  predicate Names(lib: Lib, n: Notification, name: string) {
    |n.updates| > 0 && JoinUpdate(lib, n) != [] && JoinUpdate(lib, n)[0] == ROOT
    && |JoinUpdate(lib, n)| > 1 && JoinUpdate(lib, n)[1] == name
  }

  predicate SetsBool(lib: Lib, n: Notification, name: string) {
    Names(lib, n, name) && name in {SYNC, CONNECTED} && n.updates[0].val.BoolVal?
  }

  predicate SetsText(lib: Lib, n: Notification, name: string) {
    Names(lib, n, name) && name in {CONNECTED_ADDR, CONNECT_ERROR} && n.updates[0].val.StringVal?
  }

  /** The fields after a write: the one it names is set, if it has the right type; the rest stays. */
  ghost predicate FieldsSet(lib: Lib, st: State, n: Notification, st': State) {
    && (forall name :: if SetsBool(lib, n, name) then Holds(st'.meta.bools, name, n.updates[0].val.bv)
                       else SameAt(st'.meta.bools, st.meta.bools, name))
    && (forall name :: if SetsText(lib, n, name) then Holds(st'.meta.strs, name, n.updates[0].val.sv)
                       else SameAt(st'.meta.strs, st.meta.strs, name))
    && st'.sync == if SetsBool(lib, n, SYNC) then n.updates[0].val.bv else st.sync
  }

  predicate Holds<V(==)>(m: map<string, V>, name: string, v: V) {
    name in m && m[name] == v
  }

  predicate SameAt<V(==)>(m: map<string, V>, m': map<string, V>, name: string) {
    (name in m <==> name in m') && (name in m ==> m[name] == m'[name])
  }

  lemma EffectSets(lib: Lib, st: State, n: Notification)
    requires |n.updates| > 0 && PathOk(JoinUpdate(lib, n)) && JoinUpdate(lib, n)[0] == ROOT
    ensures var r := MetaEffect(st, JoinUpdate(lib, n)[1], n.updates[0].val);
            FieldsSet(lib, st, n, if r.Some? then r.value else st)
  {
  }

  lemma RealSetsNothing(lib: Lib, st: State, n: Notification)
    requires |n.updates| > 0 && IsReal(JoinUpdate(lib, n))
    ensures FieldsSet(lib, st, n, st)
  {
  }

  lemma UpdateOneSets(lib: Lib, st: State, n: Notification)
    requires |n.updates| > 0 && PathOk(JoinUpdate(lib, n))
    ensures FieldsSet(lib, st, n, UpdateOne(lib, st, n).st)
  {
    hide MetaEffect, FieldsSet, Add, Get, SetAt, JoinUpdate;
    var p := JoinUpdate(lib, n);
    if p[0] == ROOT {
      EffectSets(lib, st, n);
      var m := MetaEffect(st, p[1], n.updates[0].val);
      if m.Some? { FieldsOnly(lib, st, n, m.value, UpdateOne(lib, st, n).st); }
    } else {
      RealSetsNothing(lib, st, n);
      FieldsOnly(lib, st, n, st, UpdateOne(lib, st, n).st);
    }
  }

  lemma FieldsOnly(lib: Lib, st: State, n: Notification, a: State, b: State)
    requires FieldsSet(lib, st, n, a) && SameFields(a, b)
    ensures FieldsSet(lib, st, n, b)
  {
  }

  lemma FieldsFrom(lib: Lib, st: State, st1: State, n: Notification, b: State)
    requires FieldsSet(lib, st1, n, b) && SameFields(st, st1)
    ensures FieldsSet(lib, st, n, b)
  {
  }

  lemma WriteSets(lib: Lib, st: State, n: Notification)
    requires OneWrite(lib, n)
    ensures FieldsSet(lib, st, n, GnmiUpdate(lib, st, n).st)
  {
    assert n.updates[0] in n.updates;
    var st1 := CheckTimestamp(st, n.ts);
    hide FieldsSet, UpdateOne, JoinUpdate;
    UpdateOneSets(lib, st1, n);
    var u := UpdateOne(lib, st1, n);
    FieldsOnly(lib, st1, n, u.st, GnmiUpdate(lib, st, n).st);
    FieldsFrom(lib, st, st1, n, GnmiUpdate(lib, st, n).st);
  }

  // ---------------------------------------------------------------- whole runs

  /** The states of sending single updates and groups one after the other to a new target. */
  ghost predicate IsWriting(lib: Lib, ns: seq<Notification>, states: seq<State>) {
    && |states| == |ns| + 1 && states[0] == INIT
    && forall i | 0 <= i < |ns| :: OneWrite(lib, ns[i]) && states[i + 1] == GnmiUpdate(lib, states[i], ns[i]).st
  }

  lemma WritingStep(lib: Lib, ns: seq<Notification>, states: seq<State>, k: nat)
    requires IsWriting(lib, ns, states) && 0 < k <= |ns|
    ensures FieldsSet(lib, states[k - 1], ns[k - 1], states[k])
  {
    hide FieldsSet, GnmiUpdate;
    assert OneWrite(lib, ns[k - 1]);
    WriteSets(lib, states[k - 1], ns[k - 1]);
  }

  /** The field holds the value of the last of the first `k` notifications that sets it; without one
      it is unset. */
  ghost predicate HoldsLastFlag(lib: Lib, ns: seq<Notification>, k: nat, name: string, st: State)
    requires k <= |ns|
  {
    && ((forall i | 0 <= i < k :: !SetsBool(lib, ns[i], name)) ==>
          name !in st.meta.bools && (name == SYNC ==> !st.sync))
    && (forall j | 0 <= j < k && SetsBool(lib, ns[j], name)
                   && (forall i | j < i < k :: !SetsBool(lib, ns[i], name)) ::
          && Holds(st.meta.bools, name, ns[j].updates[0].val.bv)
          && (name == SYNC ==> st.sync == ns[j].updates[0].val.bv))
  }

  ghost predicate HoldsLastText(lib: Lib, ns: seq<Notification>, k: nat, name: string, st: State)
    requires k <= |ns|
  {
    && ((forall i | 0 <= i < k :: !SetsText(lib, ns[i], name)) ==> name !in st.meta.strs)
    && (forall j | 0 <= j < k && SetsText(lib, ns[j], name)
                   && (forall i | j < i < k :: !SetsText(lib, ns[i], name)) ::
          Holds(st.meta.strs, name, ns[j].updates[0].val.sv))
  }

  lemma HoldsOneMore(lib: Lib, ns: seq<Notification>, k: nat, name: string, st: State, st': State)
    requires 0 < k <= |ns| && FieldsSet(lib, st, ns[k - 1], st')
    ensures HoldsLastFlag(lib, ns, k - 1, name, st) ==> HoldsLastFlag(lib, ns, k, name, st')
    ensures HoldsLastText(lib, ns, k - 1, name, st) ==> HoldsLastText(lib, ns, k, name, st')
  {
    hide Names;
  }

  /** The boolean and text fields and the sync flag hold the value that arrived last with the right
      type, even where the tree rejected it as outdated; without one they are unset. */
  lemma {:induction false} FieldsHoldLastArrived(lib: Lib, ns: seq<Notification>, states: seq<State>, k: nat,
        name: string)
    requires IsWriting(lib, ns, states) && k <= |ns|
    ensures HoldsLastFlag(lib, ns, k, name, states[k])
    ensures HoldsLastText(lib, ns, k, name, states[k])
    decreases k
  {
    hide GnmiUpdate, SetsBool, SetsText, FieldsSet;
    if k > 0 {
      hide HoldsLastFlag, HoldsLastText;
      FieldsHoldLastArrived(lib, ns, states, k - 1, name);
      WritingStep(lib, ns, states, k);
      HoldsOneMore(lib, ns, k, name, states[k - 1], states[k]);
    }
  }

  // ---------------------------------------------------------------- delete and reset

  /** A delete of real data leaves all the metadata; a delete in the metadata takes the entry it names
      out and sets its counter to zero, and leaves the rest, the sync flag included. */
  lemma DeleteResets(lib: Lib, st: State, n: Notification)
    requires |n.deletes| == 1 && n.updates == [] && !n.atomic && PathOk(JoinDelete(lib, n)) && NotiOk(lib, n)
    ensures var st', glob := GnmiUpdate(lib, st, n).st, JoinDelete(lib, n);
            var st1 := AddInt(st, UpdateCount, 1);
            && st'.sync == st.sync && st'.feed == st.feed
            && (IsReal(glob) ==> st'.meta == st1.meta)
            && (!IsReal(glob) ==>
                  && st'.meta.bools.Keys == st.meta.bools.Keys - {glob[1]}
                  && st'.meta.strs.Keys == st.meta.strs.Keys - {glob[1]}
                  && (forall name | name != glob[1] ::
                        SameAt(st'.meta.bools, st.meta.bools, name) && SameAt(st'.meta.strs, st.meta.strs, name))
                  && (forall c :: Count(st', c) == if lib.counter(glob[1]) == Some(c) then 0 else Count(st1, c)))
  {
    hide DeleteConditional;
  }

  /** What a reset tells: the leaves of the metadata it sends, then each root that it drops. */
  lemma {:induction false} ResetTells(st: State, roots: seq<string>)
    ensures var st' := DropRoots(st, roots);
            && st'.feed == st.feed + seq(|roots|, i requires 0 <= i < |roots| => RootDeleted(roots[i]))
            && st'.meta == st.meta && st'.ts == st.ts && st'.sync == st.sync
    decreases |roots|
  {
    if roots != [] {
      ResetTells(st, roots[..|roots| - 1]);
      hide DeleteConditional;
    }
  }

  /** What dropping roots leaves: all that lies below none of them.  A root that is named like the
      wildcard takes everything with it, the metadata included. */
  lemma {:induction false} DropsExactly(st: State, roots: seq<string>)
    requires TreeOk(st.tree)
    ensures TreeOk(DropRoots(st, roots).tree)
    ensures var m, m' := Abs(st.tree), Abs(DropRoots(st, roots).tree);
            && (forall p :: p in m' <==> p in m && !("*" in roots) && !(p != [] && p[0] in roots))
            && (forall p | p in m' :: m'[p] == m[p])
    decreases |roots|
  {
    if roots != [] {
      var before, r := roots[..|roots| - 1], roots[|roots| - 1];
      assert roots == before + [r];
      DropsExactly(st, before);
      var st1 := DropRoots(st, before);
      DeleteRefinesFilter(st1.tree, [r], Always());
      CF.DeleteIsNoLeaf(st1.tree, [r], Always());
      forall p ensures DeleteMatch([r], p) <==> r == "*" || (p != [] && p[0] == r) {
        assert [r][1..] == [];
      }
      hide DeleteConditional, DeleteMatch, Abs, TreeOk;
    }
  }

  /** After a reset the tree holds exactly the metadata that was there before or was sent, and no
      real data; unless a root is named like the wildcard. */
  lemma ResetKeepsMetadata(lib: Lib, st: State, metas: seq<Notification>, roots: seq<string>)
    requires TreeOk(st.tree) && forall n | n in metas :: MetaNoti(lib, n)
    requires RootsOf(UpdateMeta(lib, ClearMeta(st), metas).tree, roots)
    ensures var m, m' := Abs(UpdateMeta(lib, ClearMeta(st), metas).tree), Abs(ResetTo(lib, st, metas, roots).tree);
            m' == if "*" in roots then map[] else map p | p in m && !IsReal(p) :: m[p]
  {
    var st1 := UpdateMeta(lib, ClearMeta(st), metas);
    MetaTreeOk(lib, ClearMeta(st), metas);
    DropsExactly(st1, roots);
    forall p | p in Abs(st1.tree) && IsReal(p) ensures p[0] in roots {
      AbsLook(st1.tree);
      LookStep(st1.tree, p);
    }
    assert [] !in Abs(st1.tree) by { AbsLook(st1.tree); }
    hide Abs, UpdateMeta, DropRoots;
  }

  lemma {:induction false} MetaTreeOk(lib: Lib, st: State, metas: seq<Notification>)
    requires TreeOk(st.tree) && forall n | n in metas :: MetaNoti(lib, n)
    ensures TreeOk(UpdateMeta(lib, st, metas).tree)
    ensures Count(UpdateMeta(lib, st, metas), UpdateCount) == Count(st, UpdateCount)
    decreases |metas|
  {
    if metas != [] {
      var before, n := metas[..|metas| - 1], metas[|metas| - 1];
      assert MetaNoti(lib, n) by { assert n in metas; }
      assert forall x | x in before :: x in metas;
      MetaTreeOk(lib, st, before);
      UpdateOneMap(lib, UpdateMeta(lib, st, before), n);
      UpdateCredits(lib, UpdateMeta(lib, st, before), n, UpdateCount);
      hide UpdateOne, Abs, TreeOk;
    }
  }
}
