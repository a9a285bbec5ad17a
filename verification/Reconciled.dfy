/** Applying the delta again and again brings the observed data to the intended data. */
module Reconciled {
  import opened Gnmi
  import opened XPath
  import opened Reconcile
  import RT = XPathRoundTrip

  /** The data behind each path. */
  type State = map<Route, Json>

  // ---------------------------------------------------------------- applying a delta

  predicate IsField(p: Route, q: Route) {
    |q| == |p| + 1 && p == q[..|p|] && q[|p|].key == map[]
  }

  /** A delete takes away the data of its path, or a field of the data at its parent, and, on a
      device that deletes whole subtrees (`deep`), everything below its path. */
  function ApplyDelete(deep: bool, s: State, d: Route): State {
    map p | p in s && !Reaches(deep, d, p) ::
      if IsField(p, d) && s[p].Obj? then Obj(s[p].fields - {d[|p|].name}) else s[p]
  }

  predicate Reaches(deep: bool, d: Route, p: Route) {
    d == p || (deep && d <= p)
  }

  predicate Scalar(x: Json) {
    !x.Obj? && !x.Arr?
  }

  /** An update with a scalar sets a field of the data at its parent, if there is any; otherwise an
      update sets all the data at its path. */
  function ApplyUpdate(s: State, u: Update): State {
    var q, v := u.path, GetValue(u.val);
    if Scalar(v) && q != [] && q[|q| - 1].key == map[] && q[..|q| - 1] in s && s[q[..|q| - 1]].Obj? then
      var p := q[..|q| - 1];
      s[p := Obj(s[p].fields[q[|q| - 1].name := v])]
    else s[q := v]
  }

  function ApplyDeletes(deep: bool, s: State, ds: seq<Route>): State
    decreases |ds|
  {
    if ds == [] then s else ApplyDeletes(deep, ApplyDelete(deep, s, ds[0]), ds[1..])
  }

  function ApplyUpdates(s: State, us: seq<Update>): State
    decreases |us|
  {
    if us == [] then s else ApplyUpdates(ApplyUpdate(s, us[0]), us[1..])
  }

  /** The list gives every path of the state once, in some order. */
  ghost predicate Lists(us: seq<Update>, s: State) {
    && (forall i, j | 0 <= i < j < |us| :: us[i].path != us[j].path)
    && (forall i | 0 <= i < |us| :: us[i].path in s && s[us[i].path] == GetValue(us[i].val))
    && (forall p | p in s :: exists i :: 0 <= i < |us| && us[i].path == p)
  }

  /** One round: the delta of any listing of the intended and the observed data is applied. */
  ghost predicate Round(deep: bool, t: State, s: State, s': State) {
    exists x1, x2, ds, us :: Lists(x1, t) && Lists(x2, s) && IsDelta(x1, x2, ds, us)
      && s' == ApplyUpdates(ApplyDeletes(deep, s, ds), us)
  }

  // ---------------------------------------------------------------- well-formed data

  predicate Flat(x: Json) {
    if x.Obj? then forall k | k in x.fields :: Scalar(x.fields[k]) else Scalar(x)
  }

  predicate HasField(s: State, p: Route, k: string) {
    p in s && s[p].Obj? && k in s[p].fields
  }

  /** The path `q` goes on below `p` through an element without keys. */
  predicate Inside(p: Route, q: Route) {
    |p| < |q| && p == q[..|p|] && q[|p|].key == map[]
  }

  /** A container inside another one is no field of it, neither intended nor observed, and has a map
      for its data if it lies directly inside.  Under a device that deletes whole subtrees, nothing
      intended lies below what is observed and not intended. */
  ghost predicate Placed(deep: bool, t: State, s: State) {
    && (forall p: Route, q: Route | (p in t || p in s) && (q in t || q in s) && Inside(p, q) ::
          && !HasField(t, p, q[|p|].name) && !HasField(s, p, q[|p|].name)
          && (q in t && |q| == |p| + 1 ==> t[q].Obj?))
    && (deep ==> forall d, p | d in s && d !in t && p in t :: !(d <= p))
  }

  lemma PlacedStays(deep: bool, t: State, s: State, s': State)
    requires Placed(deep, t, s) && s'.Keys <= s.Keys + t.Keys
    requires forall p, k :: HasField(s', p, k) ==> HasField(s, p, k) || HasField(t, p, k)
    ensures Placed(deep, t, s')
  {
  }

  /** Well-formed and well-placed paths, with flat values. */
  ghost predicate WellFormed(deep: bool, t: State, s: State) {
    && (forall p | p in t :: RT.Plain(p) && Flat(t[p]))
    && (forall p | p in s :: RT.Plain(p) && Flat(s[p]))
    && Placed(deep, t, s)
  }

  /** Where a map is intended and something is observed, a map is observed. */
  predicate MapsFit(t: State, s: State) {
    forall p | p in t && p in s && t[p].Obj? :: s[p].Obj?
  }

  predicate Agree(t: State, s: State, p: Route) {
    (p in t <==> p in s) && (p in t ==> t[p] == s[p])
  }

  /** The paths at which the two differ. */
  function Disagree(t: State, s: State): set<Route> {
    set p | p in t.Keys + s.Keys && !Agree(t, s, p)
  }

  /** What agreed still agrees. */
  ghost predicate Closer(t: State, s: State, s': State) {
    forall p :: Agree(t, s, p) ==> Agree(t, s', p)
  }

  lemma FewerDisagree(t: State, s: State, s': State)
    requires Closer(t, s, s')
    ensures Disagree(t, s') <= Disagree(t, s)
  {
    forall p | p in Disagree(t, s') ensures p in Disagree(t, s) {
      assert !Agree(t, s', p) && !Agree(t, s, p);
    }
  }

  lemma NoDisagreement(t: State, s: State)
    ensures Disagree(t, s) == {} <==> t == s
  {
    if Disagree(t, s) == {} {
      forall p ensures Agree(t, s, p) { assert p !in Disagree(t, s); }
      forall p ensures p in t <==> p in s { assert Agree(t, s, p); }
      forall p | p in t ensures t[p] == s[p] { assert Agree(t, s, p); }
    }
  }

  // ---------------------------------------------------------------- operations that lead towards t

  /** Deletes nothing that is intended. */
  predicate GoodDelete(deep: bool, t: State, d: Route) {
    forall p | p in t :: !Reaches(deep, d, p) && (IsField(p, d) ==> !HasField(t, p, d[|p|].name))
  }

  /** Sets what is intended: the data of a path, or a field where there is a map already. */
  predicate GoodUpdate(t: State, s: State, u: Update) {
    var q, v := u.path, GetValue(u.val);
    || (q in t && v == t[q])
    || (q != [] && q[|q| - 1].key == map[] && GoodField(t, s, q[..|q| - 1], q[|q| - 1].name, v))
  }

  predicate GoodField(t: State, s: State, p: Route, k: string, v: Json) {
    HasField(t, p, k) && p in s && s[p].Obj? && t[p].fields[k] == v
  }

  lemma DeleteCloser(deep: bool, t: State, s: State, d: Route)
    requires GoodDelete(deep, t, d)
    ensures Closer(t, s, ApplyDelete(deep, s, d))
  {
    var s' := ApplyDelete(deep, s, d);
    forall p | Agree(t, s, p) ensures Agree(t, s', p) {
      if p in s && IsField(p, d) && s[p].Obj? {
        assert s[p].fields - {d[|p|].name} == s[p].fields;
      }
    }
  }

  lemma DeleteWellFormed(deep: bool, t: State, s: State, d: Route)
    requires WellFormed(deep, t, s)
    ensures WellFormed(deep, t, ApplyDelete(deep, s, d))
  {
    hide RT.Plain, Placed;
    PlacedStays(deep, t, s, ApplyDelete(deep, s, d));
  }

  predicate FieldSet(t: State, s: State, s': State, q: Route, v: Json) {
    q != [] &&
    var p, k := q[..|q| - 1], q[|q| - 1].name;
    && q == FieldPath(p, k) && GoodField(t, s, p, k, v)
    && s' == s[p := Obj(s[p].fields[k := t[p].fields[k]])]
  }

  /** Where a good update goes. */
  lemma UpdateEffect(deep: bool, t: State, s: State, u: Update)
    requires WellFormed(deep, t, s) && GoodUpdate(t, s, u)
    ensures var q, s' := u.path, ApplyUpdate(s, u);
            if q in t then s' == s[q := t[q]] else FieldSet(t, s, s', q, GetValue(u.val))
  {
    hide RT.Plain, Flat;
    var q := u.path;
    if q != [] {
      var p := q[..|q| - 1];
      assert q == p + [q[|q| - 1]];
      if q[|q| - 1].key == map[] {
        assert Inside(p, q);
        if p in t { FieldIsScalar(t[p]); }
      }
    }
  }

  lemma FieldIsScalar(x: Json)
    ensures Flat(x) && x.Obj? ==> forall k | k in x.fields :: Scalar(x.fields[k])
  {
  }

  lemma UpdateCloser(deep: bool, t: State, s: State, u: Update)
    requires WellFormed(deep, t, s) && GoodUpdate(t, s, u)
    ensures Closer(t, s, ApplyUpdate(s, u))
  {
    hide RT.Plain, WellFormed, ApplyUpdate;
    UpdateEffect(deep, t, s, u);
    var q, s' := u.path, ApplyUpdate(s, u);
    if q !in t {
      var p, k := q[..|q| - 1], q[|q| - 1].name;
      if t[p] == s[p] { assert s[p].fields[k := t[p].fields[k]] == s[p].fields; }
    }
  }

  lemma SetWellFormed(deep: bool, t: State, s: State, p: Route, x: Json)
    requires WellFormed(deep, t, s) && p in t
    requires x == t[p] ||
             (p in s && t[p].Obj? && s[p].Obj? &&
              exists k | k in t[p].fields :: x == Obj(s[p].fields[k := t[p].fields[k]]))
    ensures WellFormed(deep, t, s[p := x])
  {
    hide RT.Plain, Placed;
    PlacedStays(deep, t, s, s[p := x]);
  }

  lemma UpdateWellFormed(deep: bool, t: State, s: State, u: Update)
    requires WellFormed(deep, t, s) && GoodUpdate(t, s, u)
    ensures var s' := ApplyUpdate(s, u);
            && WellFormed(deep, t, s') && (MapsFit(t, s) ==> MapsFit(t, s'))
            && (forall p :: p in s' ==> p in s || p in t)
            && (forall p | p in s :: p in s' && (p in t && t[p].Obj? && s[p].Obj? ==> s'[p].Obj?))
  {
    hide ApplyUpdate, WellFormed, GoodUpdate;
    UpdateEffect(deep, t, s, u);
    var q := u.path;
    if q in t {
      SetWellFormed(deep, t, s, q, t[q]);
    } else {
      var p, k := q[..|q| - 1], q[|q| - 1].name;
      SetWellFormed(deep, t, s, p, Obj(s[p].fields[k := t[p].fields[k]]));
    }
  }

  // ---------------------------------------------------------------- all deletes, all updates

  /** The fields a list of deletes leaves at a path. */
  ghost predicate FieldsLeft(s: State, s': State, ds: seq<Route>, p: Route) {
    && p in s && p in s' && s[p].Obj? && s'[p].Obj?
    && forall k ::
         (k in s'[p].fields <==> k in s[p].fields && FieldPath(p, k) !in ds)
         && (k in s'[p].fields ==> s'[p].fields[k] == s[p].fields[k])
  }

  /** Deletes that do not reach a path leave its data, but for fields. */
  lemma {:induction false} EntryKept(deep: bool, s: State, ds: seq<Route>, p: Route)
    requires p in s && forall d | d in ds :: !Reaches(deep, d, p)
    ensures var s' := ApplyDeletes(deep, s, ds);
            p in s' && (s'[p].Obj? <==> s[p].Obj?) && (!s[p].Obj? ==> s'[p] == s[p])
    decreases |ds|
  {
    if ds != [] { EntryKept(deep, ApplyDelete(deep, s, ds[0]), ds[1..], p); }
  }

  lemma {:induction false} DeletesWellFormed(deep: bool, t: State, s: State, ds: seq<Route>)
    requires WellFormed(deep, t, s)
    ensures var s' := ApplyDeletes(deep, s, ds);
            WellFormed(deep, t, s') && forall p :: p in s' ==> p in s && p !in ds
    decreases |ds|
  {
    if ds != [] {
      var s1 := ApplyDelete(deep, s, ds[0]);
      DeleteWellFormed(deep, t, s, ds[0]);
      DeletedIsGone(deep, s, ds[0]);
      hide ApplyDelete, WellFormed;
      DeletesWellFormed(deep, t, s1, ds[1..]);
    }
  }

  lemma DeletedIsGone(deep: bool, s: State, d: Route)
    ensures forall p :: p in ApplyDelete(deep, s, d) ==> p in s && p != d
  {
  }

  lemma {:induction false} DeletesCloser(deep: bool, t: State, s: State, ds: seq<Route>)
    requires forall d | d in ds :: GoodDelete(deep, t, d)
    ensures Closer(t, s, ApplyDeletes(deep, s, ds))
    decreases |ds|
  {
    if ds != [] {
      DeleteCloser(deep, t, s, ds[0]);
      hide ApplyDelete, GoodDelete, Agree;
      DeletesCloser(deep, t, ApplyDelete(deep, s, ds[0]), ds[1..]);
    }
  }

  lemma DeletesKeep(deep: bool, t: State, s: State, ds: seq<Route>)
    requires WellFormed(deep, t, s) && forall d | d in ds :: GoodDelete(deep, t, d)
    ensures var s' := ApplyDeletes(deep, s, ds);
            && WellFormed(deep, t, s') && Closer(t, s, s') && (MapsFit(t, s) ==> MapsFit(t, s'))
            && (forall p :: p in s' ==> p in s && p !in ds)
            && (forall p | p in t && p in s :: p in s' && (s'[p].Obj? <==> s[p].Obj?))
  {
    DeletesWellFormed(deep, t, s, ds);
    DeletesCloser(deep, t, s, ds);
    hide WellFormed, Closer, ApplyDeletes;
    forall p | p in t && p in s
      ensures p in ApplyDeletes(deep, s, ds) && (ApplyDeletes(deep, s, ds)[p].Obj? <==> s[p].Obj?)
    {
      EntryKept(deep, s, ds, p);
    }
  }

  lemma {:induction false} DeletesFields(deep: bool, t: State, s: State, ds: seq<Route>, p: Route)
    requires p in t && p in s && s[p].Obj? && forall d | d in ds :: GoodDelete(deep, t, d)
    ensures FieldsLeft(s, ApplyDeletes(deep, s, ds), ds, p)
    decreases |ds|
  {
    if ds != [] {
      var s1 := ApplyDelete(deep, s, ds[0]);
      OneDeleteField(deep, t, s, ds[0], p);
      DeletesFields(deep, t, s1, ds[1..], p);
    }
  }

  lemma OneDeleteField(deep: bool, t: State, s: State, d: Route, p: Route)
    requires p in t && p in s && s[p].Obj? && GoodDelete(deep, t, d)
    ensures FieldsLeft(s, ApplyDelete(deep, s, d), [d], p)
  {
    forall k ensures FieldPath(p, k) == d <==> IsField(p, d) && d[|p|].name == k {
      if IsField(p, d) && d[|p|].name == k { assert d == d[..|p|] + [d[|p|]]; }
    }
  }

  predicate FieldOk(t: State, s: State, p: Route, k: string) {
    && p in t && p in s && t[p].Obj? && s[p].Obj?
    && k in t[p].fields && k in s[p].fields && s[p].fields[k] == t[p].fields[k]
  }

  predicate NoExtra(t: State, s: State, p: Route) {
    p in t && p in s && t[p].Obj? && s[p].Obj? && s[p].fields.Keys <= t[p].fields.Keys
  }

  lemma OneUpdate(deep: bool, t: State, s: State, u: Update)
    requires WellFormed(deep, t, s) && GoodUpdate(t, s, u)
    ensures var s' := ApplyUpdate(s, u);
            && (u.path in t ==> Agree(t, s', u.path))
            && (forall p, k :: FieldOk(t, s, p, k) ==> FieldOk(t, s', p, k))
            && (forall p :: NoExtra(t, s, p) ==> NoExtra(t, s', p))
            && (forall p, k | u.path == FieldPath(p, k) && GoodField(t, s, p, k, GetValue(u.val))
                  :: FieldOk(t, s', p, k))
  {
    hide WellFormed, ApplyUpdate;
    UpdateEffect(deep, t, s, u);
    forall p, k | u.path == FieldPath(p, k) && GoodField(t, s, p, k, GetValue(u.val))
      ensures FieldOk(t, ApplyUpdate(s, u), p, k)
    {
      FieldIsNoPath(deep, t, s, p, k);
      assert u.path[..|u.path| - 1] == p;
    }
  }

  lemma FieldIsNoPath(deep: bool, t: State, s: State, p: Route, k: string)
    requires WellFormed(deep, t, s) && (p in t || p in s) && (HasField(t, p, k) || HasField(s, p, k))
    ensures forall q | q in t || q in s :: !(FieldPath(p, k) <= q)
  {
    hide RT.Plain, Flat;
    forall q | (q in t || q in s) ensures !(FieldPath(p, k) <= q) {
      assert FieldPath(p, k)[|p|] == PathElem(k, map[]) && FieldPath(p, k)[..|p|] == p;
      if FieldPath(p, k) <= q { BelowField(p, k, q); }
    }
  }

  lemma BelowField(p: Route, k: string, q: Route)
    requires FieldPath(p, k) <= q
    ensures Inside(p, q) && q[|p|].name == k
  {
    var d := FieldPath(p, k);
    assert q[..|d|] == d && q[|p|] == d[|p|];
    assert q[..|p|] == d[..|p|] == p;
  }

  lemma {:induction false} UpdatesKeep(deep: bool, t: State, s: State, us: seq<Update>)
    requires WellFormed(deep, t, s) && forall u | u in us :: GoodUpdate(t, s, u)
    ensures var s' := ApplyUpdates(s, us);
            && WellFormed(deep, t, s') && Closer(t, s, s') && (MapsFit(t, s) ==> MapsFit(t, s'))
            && (forall p :: p in s' ==> p in s || p in t)
            && (forall u | u in us && u.path in t :: Agree(t, s', u.path))
            && (forall p :: NoExtra(t, s, p) ==> NoExtra(t, s', p))
            && (forall p, k :: FieldOk(t, s, p, k) ==> FieldOk(t, s', p, k))
            && (forall u, p, k | u in us && u.path == FieldPath(p, k) && GoodField(t, s, p, k, GetValue(u.val)) ::
                  FieldOk(t, s', p, k))
    decreases |us|
  {
    if us != [] {
      hide ApplyUpdate, WellFormed, Agree, FieldOk, NoExtra, MapsFit;
      var s1 := ApplyUpdate(s, us[0]);
      assert us[0] in us;
      UpdateCloser(deep, t, s, us[0]);
      UpdateWellFormed(deep, t, s, us[0]);
      OneUpdate(deep, t, s, us[0]);
      forall u | u in us[1..] ensures GoodUpdate(t, s1, u) { assert u in us; }
      UpdatesKeep(deep, t, s1, us[1..]);
    }
  }

  // ---------------------------------------------------------------- what the delta holds

  lemma {:induction false} SameTextIsEqual(p: Route, q: Route)
    requires RT.Plain(p) && RT.Plain(q)
    ensures SameText(p, q) <==> p == q
  {
    if p == q { RT.PrintExists(p, true); }
    if SameText(p, q) {
      var t :| Printed(p, true, t) && Printed(q, true, t);
      RT.PrintInjective(p, q, t);
    }
  }

  lemma KnownMeans(us: seq<Update>, s: State, p: Route)
    requires Lists(us, s) && RT.Plain(p) && forall q | q in s :: RT.Plain(q)
    ensures Known(p, us) <==> p in s
  {
    hide RT.Plain, SameText;
    forall j | 0 <= j < |us| ensures SameText(us[j].path, p) <==> us[j].path == p { SameTextIsEqual(us[j].path, p); }
  }

  lemma AnyWantedMeans(a: Json, b: Json)
    requires a.Obj? ==> b.Obj?
    ensures AnyWanted(a, b) <==> a != b
  {
    if a.Obj? && !AnyWanted(a, b) {
      forall k ensures k in a.fields <==> k in b.fields {
        assert !Wanted(a, b, DeleteOp(k));
        if k in a.fields { assert !Wanted(a, b, UpdateOp(k, a.fields[k])); }
      }
      forall k | k in a.fields ensures a.fields[k] == b.fields[k] {
        assert !Wanted(a, b, UpdateOp(k, a.fields[k]));
      }
      assert a.fields == b.fields;
    }
    assert !a.Obj? && a != b ==> Wanted(a, b, CreateOp);
  }

  lemma DifferMeans(deep: bool, t: State, s: State, x1: seq<Update>, x2: seq<Update>, j: nat, l: nat)
    requires WellFormed(deep, t, s) && MapsFit(t, s) && Lists(x1, t) && Lists(x2, s) && j < |x1| && l < |x2|
    ensures var p, q := x1[j].path, x2[l].path; Differ(x1[j], x2[l]) <==> p == q && t[p] != s[p]
  {
    hide RT.Plain, SameText, AnyWanted, Placed;
    var p, q := x1[j].path, x2[l].path;
    SameTextIsEqual(p, q);
    if p == q { AnyWantedMeans(t[p], s[p]); }
  }

  lemma StaleMeans(deep: bool, t: State, s: State, x1: seq<Update>, x2: seq<Update>)
    requires WellFormed(deep, t, s) && Lists(x1, t) && Lists(x2, s)
    ensures forall d :: Stale(x1, x2, d) <==> d in s && d !in t
  {
    hide RT.Plain, SameText, Known, Placed;
    forall d | d in s ensures Known(d, x1) <==> d in t { KnownMeans(x1, t, d); }
  }

  lemma MissingMeans(deep: bool, t: State, s: State, x1: seq<Update>, x2: seq<Update>, n: nat)
    requires WellFormed(deep, t, s) && Lists(x1, t) && Lists(x2, s) && n <= |x1|
    ensures forall u :: Missing(x1, x2, n, u) <==> exists j | 0 <= j < n :: x1[j] == u && u.path !in s
  {
    hide RT.Plain, SameText, Known, Placed;
    forall j | 0 <= j < n ensures Known(x1[j].path, x2) <==> x1[j].path in s { KnownMeans(x2, s, x1[j].path); }
  }

  /** No delete of a stale path or of a field reaches what is both intended and observed. */
  lemma StaleIsGood(deep: bool, t: State, s: State, d: Route)
    requires WellFormed(deep, t, s) && d in s && d !in t
    ensures GoodDelete(deep, t, d)
  {
    hide RT.Plain, Flat;
    forall p | p in t && IsField(p, d) ensures !HasField(t, p, d[|p|].name) { assert Inside(p, d); }
  }

  lemma PatchIsGood(deep: bool, t: State, s: State, p: Route, k: string)
    requires WellFormed(deep, t, s) && HasField(s, p, k) && !HasField(t, p, k)
    ensures GoodDelete(deep, t, FieldPath(p, k))
  {
    hide WellFormed;
    FieldIsNoPath(deep, t, s, p, k);
    var d := FieldPath(p, k);
    assert d[..|p|] == p && d[|p|].name == k;
  }

  /** If no pair differs, one round does it. */
  lemma FullDeltaReaches(deep: bool, t: State, s: State, x1: seq<Update>, x2: seq<Update>,
                         ds: seq<Route>, us: seq<Update>)
    requires WellFormed(deep, t, s) && MapsFit(t, s) && Lists(x1, t) && Lists(x2, s)
    requires NoneDiffer(x1, x2, |x1|) && FullDelta(x1, x2, ds, us)
    ensures ApplyUpdates(ApplyDeletes(deep, s, ds), us) == t
    ensures t == s ==> ds == [] && us == []
  {
    hide RT.Plain, ApplyDelete, ApplyUpdate, GoodDelete, Stale, Missing, Differ, Placed, MapsFit, FullDelta;
    StaleMeans(deep, t, s, x1, x2);
    MissingMeans(deep, t, s, x1, x2, |x1|);
    FullMembers(x1, x2, ds, us);
    forall d | d in ds ensures GoodDelete(deep, t, d) { StaleIsGood(deep, t, s, d); }
    DeletesKeep(deep, t, s, ds);
    var s1 := ApplyDeletes(deep, s, ds);
    forall u | u in us ensures u.path in t && GoodUpdate(t, s1, u) && u.path !in s {}
    UpdatesKeep(deep, t, s1, us);
    var s2 := ApplyUpdates(s1, us);
    forall p ensures Agree(t, s2, p) {
      if p in t && p in s {
        BothAgree(deep, t, s, x1, x2, p);
      } else if p in t {
        var j :| 0 <= j < |x1| && x1[j].path == p;
        assert x1[j] in us;
      } else if p in s {
        assert p in ds;
      }
    }
    AgreeEverywhere(t, s2);
    assert ds != [] ==> ds[0] in ds;
    assert us != [] ==> us[0] in us;
  }

  lemma BothAgree(deep: bool, t: State, s: State, x1: seq<Update>, x2: seq<Update>, p: Route)
    requires WellFormed(deep, t, s) && MapsFit(t, s) && Lists(x1, t) && Lists(x2, s)
    requires NoneDiffer(x1, x2, |x1|) && p in t && p in s
    ensures t[p] == s[p]
  {
    hide RT.Plain, Differ, Placed;
    var j :| 0 <= j < |x1| && x1[j].path == p;
    var l :| 0 <= l < |x2| && x2[l].path == p;
    DifferMeans(deep, t, s, x1, x2, j, l);
  }

  lemma AgreeEverywhere(t: State, s: State)
    requires forall p :: Agree(t, s, p)
    ensures t == s
  {
    NoDisagreement(t, s);
    forall p ensures p !in Disagree(t, s) { assert Agree(t, s, p); }
    assert Disagree(t, s) == {};
  }

  /** A field that is intended and not observed so. */
  predicate Lacks(t: State, s: State, p: Route, k: string)
    requires p in t && p in s
  {
    HasField(t, p, k) && (!HasField(s, p, k) || s[p].fields[k] != t[p].fields[k])
  }

  function SetField(t: State, p: Route, k: string): Update
    requires HasField(t, p, k)
  {
    Update(FieldPath(p, k), JsonVal(t[p].fields[k]))
  }

  /** What the patched pair gets. */
  ghost predicate Patched(t: State, s: State, ds: seq<Route>, us: seq<Update>, p: Route) {
    && p in t && p in s && t[p] != s[p] && (t[p].Obj? ==> s[p].Obj?)
    && (forall k | t[p].Obj? && HasField(s, p, k) && !HasField(t, p, k) :: FieldPath(p, k) in ds)
    && (forall d | d in ds ::
          || (d in s && d !in t)
          || exists k :: HasField(s, p, k) && !HasField(t, p, k) && d == FieldPath(p, k))
    && (forall k | Lacks(t, s, p, k) :: SetField(t, p, k) in us)
    && (!t[p].Obj? ==> exists u :: u in us && u.path == p && GetValue(u.val) == t[p])
    && (forall u | u in us ::
          || (u.path in t && GetValue(u.val) == t[u.path])
          || exists k :: HasField(t, p, k) && u == SetField(t, p, k))
  }

  lemma DeltaIsPatched(deep: bool, t: State, s: State, x1: seq<Update>, x2: seq<Update>, j: nat, l: nat,
                       ds: seq<Route>, us: seq<Update>)
    requires WellFormed(deep, t, s) && MapsFit(t, s) && Lists(x1, t) && Lists(x2, s)
    requires FirstDiffer(x1, x2, j, l) && DeltaAt(x1, x2, j, l, ds, us)
    ensures Patched(t, s, ds, us, x1[j].path)
  {
    hide RT.Plain, Differ, Stale, Missing, Flat, Placed, DeltaAt;
    StaleMeans(deep, t, s, x1, x2);
    MissingMeans(deep, t, s, x1, x2, j);
    PatchedMembers(x1, x2, j, l, ds, us);
    DifferMeans(deep, t, s, x1, x2, j, l);
    var p := x1[j].path;
    assert t[p] == GetValue(x1[j].val) && s[p] == GetValue(x2[l].val);
    forall k | t[p].Obj? && HasField(s, p, k) && !HasField(t, p, k) ensures FieldPath(p, k) in ds {
      assert Wanted(t[p], s[p], DeleteOp(k));
      assert PatchDelete(x1[j], s[p], FieldPath(p, k));
    }
    forall k | Lacks(t, s, p, k) ensures SetField(t, p, k) in us {
      assert Wanted(t[p], s[p], UpdateOp(k, t[p].fields[k]));
      assert PatchUpdate(x1[j], s[p], SetField(t, p, k));
    }
    if !t[p].Obj? {
      assert Wanted(t[p], s[p], CreateOp);
      assert PatchUpdate(x1[j], s[p], x1[j]) && x1[j] in us;
    }
    forall d | d in ds && !(d in s && d !in t)
      ensures exists k :: HasField(s, p, k) && !HasField(t, p, k) && d == FieldPath(p, k)
    {
      var k :| Wanted(t[p], s[p], DeleteOp(k)) && d == FieldPath(p, k);
      assert HasField(s, p, k) && !HasField(t, p, k);
    }
    forall u | u in us && !(u.path in t && GetValue(u.val) == t[u.path])
      ensures exists k :: HasField(t, p, k) && u == SetField(t, p, k)
    {
      var k, v :| Wanted(t[p], s[p], UpdateOp(k, v)) && u == Update(FieldPath(p, k), JsonVal(v));
      assert HasField(t, p, k);
    }
  }

  lemma PatchReaches(deep: bool, t: State, s: State, ds: seq<Route>, us: seq<Update>, p: Route)
    requires WellFormed(deep, t, s) && MapsFit(t, s) && Patched(t, s, ds, us, p)
    ensures var s2 := ApplyUpdates(ApplyDeletes(deep, s, ds), us);
            WellFormed(deep, t, s2) && MapsFit(t, s2) && Closer(t, s, s2) && Agree(t, s2, p)
  {
    hide WellFormed, ApplyDelete, ApplyUpdate, GoodDelete, MapsFit;
    forall d | d in ds ensures GoodDelete(deep, t, d) {
      if d in s && d !in t {
        StaleIsGood(deep, t, s, d);
      } else {
        var k :| HasField(s, p, k) && !HasField(t, p, k) && d == FieldPath(p, k);
        PatchIsGood(deep, t, s, p, k);
      }
    }
    DeletesKeep(deep, t, s, ds);
    var s1 := ApplyDeletes(deep, s, ds);
    forall u | u in us ensures GoodUpdate(t, s1, u) {
      if !(u.path in t && GetValue(u.val) == t[u.path]) {
        var k :| HasField(t, p, k) && u == SetField(t, p, k);
        assert FieldPath(p, k)[..|p|] == p;
      }
    }
    UpdatesKeep(deep, t, s1, us);
    if t[p].Obj? { FieldsReach(deep, t, s, ds, us, p); }
  }

  lemma FieldsReach(deep: bool, t: State, s: State, ds: seq<Route>, us: seq<Update>, p: Route)
    requires WellFormed(deep, t, s) && Patched(t, s, ds, us, p) && t[p].Obj?
    requires forall d | d in ds :: GoodDelete(deep, t, d)
    requires var s1 := ApplyDeletes(deep, s, ds);
             WellFormed(deep, t, s1) && p in s1 && s1[p].Obj? && forall u | u in us :: GoodUpdate(t, s1, u)
    ensures Agree(t, ApplyUpdates(ApplyDeletes(deep, s, ds), us), p)
  {
    hide WellFormed, GoodDelete, GoodUpdate, ApplyDeletes, ApplyUpdates, Closer;
    var s1 := ApplyDeletes(deep, s, ds);
    DeletesFields(deep, t, s, ds, p);
    assert NoExtra(t, s1, p);
    UpdatesKeep(deep, t, s1, us);
    var s2 := ApplyUpdates(s1, us);
    forall k | k in t[p].fields ensures FieldOk(t, s2, p, k) {
      if Lacks(t, s, p, k) {
        var u := SetField(t, p, k);
        assert u in us && GoodField(t, s1, p, k, GetValue(u.val));
      } else {
        NotDeleted(deep, t, s, ds, us, p, k);
        assert FieldOk(t, s1, p, k);
      }
    }
    AllFieldsOk(t, s2, p);
  }

  lemma AllFieldsOk(t: State, s: State, p: Route)
    requires NoExtra(t, s, p) && forall k | k in t[p].fields :: FieldOk(t, s, p, k)
    ensures Agree(t, s, p)
  {
    forall k ensures k in t[p].fields <==> k in s[p].fields {
      if k in t[p].fields { assert FieldOk(t, s, p, k); }
    }
    assert s[p].fields == t[p].fields;
  }

  lemma NotDeleted(deep: bool, t: State, s: State, ds: seq<Route>, us: seq<Update>, p: Route, k: string)
    requires WellFormed(deep, t, s) && Patched(t, s, ds, us, p) && HasField(t, p, k)
    ensures FieldPath(p, k) !in ds
  {
    hide WellFormed;
    FieldIsNoPath(deep, t, s, p, k);
    var d := FieldPath(p, k);
    forall k' | d == FieldPath(p, k') ensures k == k' { assert d[|p|] == PathElem(k, map[]); }
  }

  // ---------------------------------------------------------------- convergence

  /** One round where every intended map is observed as a map: nothing that agreed differs
      afterwards, something that differed agrees, and the delta is empty exactly when nothing
      differs. */
  lemma RoundStep(deep: bool, t: State, s: State, x1: seq<Update>, x2: seq<Update>, ds: seq<Route>, us: seq<Update>)
    requires WellFormed(deep, t, s) && MapsFit(t, s) && Lists(x1, t) && Lists(x2, s) && IsDelta(x1, x2, ds, us)
    ensures var s' := ApplyUpdates(ApplyDeletes(deep, s, ds), us);
            && WellFormed(deep, t, s') && MapsFit(t, s') && Closer(t, s, s')
            && (t != s ==> exists p :: !Agree(t, s, p) && Agree(t, s', p))
    ensures ds == [] && us == [] <==> t == s
  {
    hide RT.Plain, WellFormed, Lists, Patched, Differ, FullDelta, DeltaAt;
    var s' := ApplyUpdates(ApplyDeletes(deep, s, ds), us);
    if NoneDiffer(x1, x2, |x1|) && FullDelta(x1, x2, ds, us) {
      FullDeltaReaches(deep, t, s, x1, x2, ds, us);
      AllAgree(deep, t, s);
    } else {
      var j: nat, l: nat :| FirstDiffer(x1, x2, j, l) && DeltaAt(x1, x2, j, l, ds, us);
      DeltaIsPatched(deep, t, s, x1, x2, j, l, ds, us);
      var p := x1[j].path;
      PatchReaches(deep, t, s, ds, us, p);
      PatchedDiffers(t, s, ds, us, p);
    }
  }

  lemma AllAgree(deep: bool, t: State, s: State)
    requires WellFormed(deep, t, s)
    ensures WellFormed(deep, t, t) && MapsFit(t, t) && Closer(t, s, t)
    ensures t != s ==> exists p :: !Agree(t, s, p) && Agree(t, t, p)
  {
    hide RT.Plain, Flat, Placed;
    PlacedStays(deep, t, s, t);
    if forall p :: Agree(t, s, p) { AgreeEverywhere(t, s); }
  }

  lemma PatchedDiffers(t: State, s: State, ds: seq<Route>, us: seq<Update>, p: Route)
    requires Patched(t, s, ds, us, p)
    ensures !Agree(t, s, p) && !(ds == [] && us == [])
  {
    if t[p].Obj? {
      if forall k :: !DifferAt(t[p].fields, s[p].fields, k) { SameFields(t[p].fields, s[p].fields); }
      var k :| DifferAt(t[p].fields, s[p].fields, k);
      assert !HasField(t, p, k) ==> FieldPath(p, k) in ds;
      assert HasField(t, p, k) ==> Lacks(t, s, p, k) && SetField(t, p, k) in us;
    }
  }

  predicate DifferAt(m: map<string, Json>, n: map<string, Json>, k: string) {
    (k in n && k !in m) || (k in m && (k !in n || n[k] != m[k]))
  }

  lemma SameFields(m: map<string, Json>, n: map<string, Json>)
    requires forall k :: !DifferAt(m, n, k)
    ensures m == n
  {
    forall k ensures k in m <==> k in n { assert !DifferAt(m, n, k); }
    forall k | k in m ensures m[k] == n[k] { assert !DifferAt(m, n, k); }
  }

  /** Then each round leaves strictly fewer paths that differ, although the delta stops at the first
      pair that differs. */
  lemma RoundShrinks(deep: bool, t: State, s: State, s': State)
    requires WellFormed(deep, t, s) && MapsFit(t, s) && Round(deep, t, s, s')
    ensures WellFormed(deep, t, s') && MapsFit(t, s')
    ensures if t == s then s' == t else Disagree(t, s') < Disagree(t, s)
  {
    hide RT.Plain, WellFormed, Lists, IsDelta, MapsFit;
    var x1, x2, ds, us :| Lists(x1, t) && Lists(x2, s) && IsDelta(x1, x2, ds, us)
      && s' == ApplyUpdates(ApplyDeletes(deep, s, ds), us);
    RoundStep(deep, t, s, x1, x2, ds, us);
    FewerDisagree(t, s, s');
    if t != s {
      var p :| !Agree(t, s, p) && Agree(t, s', p);
      assert p in Disagree(t, s) && p !in Disagree(t, s');
    }
  }

  ghost predicate Rounds(deep: bool, t: State, states: seq<State>) {
    states != [] && forall i | 0 <= i < |states| - 1 :: Round(deep, t, states[i], states[i + 1])
  }

  lemma LaterRounds(deep: bool, t: State, states: seq<State>)
    requires Rounds(deep, t, states) && |states| > 1
    ensures Round(deep, t, states[0], states[1]) && Rounds(deep, t, states[1..])
  {
    hide Round;
    forall i | 0 <= i < |states| - 2 ensures Round(deep, t, states[1..][i], states[1..][i + 1]) {
      assert Round(deep, t, states[i + 1], states[i + 2]);
    }
    assert Round(deep, t, states[0], states[0 + 1]);
  }

  /** After as many rounds as there are paths that differ, nothing differs. */
  lemma {:induction false} Converges(deep: bool, t: State, states: seq<State>)
    requires Rounds(deep, t, states) && WellFormed(deep, t, states[0]) && MapsFit(t, states[0])
    requires |states| > |Disagree(t, states[0])|
    ensures states[|states| - 1] == t
    decreases |states|
  {
    hide WellFormed, Round, Disagree, MapsFit, Rounds;
    if |states| == 1 {
      NoDisagreement(t, states[0]);
    } else {
      LaterRounds(deep, t, states);
      RoundShrinks(deep, t, states[0], states[1]);
      NoDisagreement(t, states[0]);
      NoDisagreement(t, states[1]);
      if t != states[0] { SmallerSet(Disagree(t, states[1]), Disagree(t, states[0])); }
      Converges(deep, t, states[1..]);
    }
  }

  // ---------------------------------------------------------------- where the rounds do not get there

  /** The delete is of a stale path, or of a field of data on both sides. */
  ghost predicate DeleteShape(t: State, s: State, d: Route) {
    || (d in s && d !in t)
    || exists p, k :: p in t && p in s && (HasField(t, p, k) || HasField(s, p, k)) && d == FieldPath(p, k)
  }

  /** The update is of missing or scalar data, or of a field where there is a map already. */
  ghost predicate UpdateShape(t: State, s: State, u: Update) {
    || (u.path in t && GetValue(u.val) == t[u.path] && (u.path in s ==> !t[u.path].Obj?))
    || exists p, k :: GoodField(t, s, p, k, GetValue(u.val)) && u.path == FieldPath(p, k)
  }

  lemma PatchShape(t: State, s: State, u1: Update, p: Route)
    requires p in t && p in s && u1.path == p && GetValue(u1.val) == t[p]
    ensures forall d | PatchDelete(u1, s[p], d) :: DeleteShape(t, s, d)
    ensures forall u | PatchUpdate(u1, s[p], u) :: UpdateShape(t, s, u)
  {
    forall d | PatchDelete(u1, s[p], d) ensures DeleteShape(t, s, d) {
      var k :| Wanted(t[p], s[p], DeleteOp(k)) && d == FieldPath(p, k);
      assert HasField(t, p, k) || HasField(s, p, k);
    }
    forall u | PatchUpdate(u1, s[p], u) ensures UpdateShape(t, s, u) {
      if u != u1 {
        var k, v :| Wanted(t[p], s[p], UpdateOp(k, v)) && u == Update(FieldPath(p, k), JsonVal(v));
        assert GoodField(t, s, p, k, v);
      } else {
        assert forall k :: |FieldPath(p, k)| == |p| + 1;
      }
    }
  }

  /** What any delta consists of. */
  lemma DeltaShape(deep: bool, t: State, s: State, x1: seq<Update>, x2: seq<Update>, ds: seq<Route>, us: seq<Update>)
    requires WellFormed(deep, t, s) && Lists(x1, t) && Lists(x2, s) && IsDelta(x1, x2, ds, us)
    ensures forall d | d in ds :: DeleteShape(t, s, d)
    ensures forall u | u in us :: UpdateShape(t, s, u)
  {
    hide WellFormed, Stale, Missing, Differ, PatchDelete, PatchUpdate, FullDelta, DeltaAt;
    StaleMeans(deep, t, s, x1, x2);
    if NoneDiffer(x1, x2, |x1|) && FullDelta(x1, x2, ds, us) {
      MissingMeans(deep, t, s, x1, x2, |x1|);
      FullMembers(x1, x2, ds, us);
    } else {
      var j: nat, l: nat :| FirstDiffer(x1, x2, j, l) && DeltaAt(x1, x2, j, l, ds, us);
      MissingMeans(deep, t, s, x1, x2, j);
      SamePath(deep, t, s, x1, x2, j, l);
      PatchedMembers(x1, x2, j, l, ds, us);
      PatchShape(t, s, x1[j], x1[j].path);
    }
  }

  lemma SamePath(deep: bool, t: State, s: State, x1: seq<Update>, x2: seq<Update>, j: nat, l: nat)
    requires WellFormed(deep, t, s) && Lists(x1, t) && Lists(x2, s) && j < |x1| && l < |x2| && Differ(x1[j], x2[l])
    ensures x1[j].path == x2[l].path && x1[j].path in t && x1[j].path in s
    ensures GetValue(x1[j].val) == t[x1[j].path] && GetValue(x2[l].val) == s[x1[j].path]
  {
    hide RT.Plain, SameText, AnyWanted, Placed;
    SameTextIsEqual(x1[j].path, x2[l].path);
  }

  /** No such delete reaches a path that is both intended and observed. */
  lemma NotReached(deep: bool, t: State, s: State, d: Route, p: Route)
    requires WellFormed(deep, t, s) && DeleteShape(t, s, d) && p in t && p in s
    ensures !Reaches(deep, d, p)
  {
    hide RT.Plain, Flat;
    if !(d in s && d !in t) {
      var p0, k :| p0 in t && p0 in s && (HasField(t, p0, k) || HasField(s, p0, k)) && d == FieldPath(p0, k);
      FieldIsNoPath(deep, t, s, p0, k);
    }
  }

  /** Updates elsewhere leave data that is no map. */
  lemma {:induction false} ScalarStays(s: State, us: seq<Update>, p: Route)
    requires p in s && !s[p].Obj? && forall u | u in us :: u.path != p
    ensures var s' := ApplyUpdates(s, us); p in s' && s'[p] == s[p]
    decreases |us|
  {
    if us != [] { ScalarStays(ApplyUpdate(s, us[0]), us[1..], p); }
  }

  /** What is observed instead of an intended map stays as it is. */
  lemma MisfitStays(deep: bool, t: State, s: State, s': State, p: Route)
    requires WellFormed(deep, t, s) && Round(deep, t, s, s')
    requires p in t && p in s && t[p].Obj? && !s[p].Obj?
    ensures WellFormed(deep, t, s') && p in s' && s'[p] == s[p]
  {
    hide WellFormed, Lists, IsDelta, ApplyDeletes, ApplyUpdates, DeleteShape;
    var x1, x2, ds, us :| Lists(x1, t) && Lists(x2, s) && IsDelta(x1, x2, ds, us)
      && s' == ApplyUpdates(ApplyDeletes(deep, s, ds), us);
    DeltaShape(deep, t, s, x1, x2, ds, us);
    var s1 := ApplyDeletes(deep, s, ds);
    DeletesWellFormed(deep, t, s, ds);
    forall q | q in t && q in s ensures q in s1 && (s1[q].Obj? <==> s[q].Obj?) && (!s[q].Obj? ==> s1[q] == s[q]) {
      forall d | d in ds ensures !Reaches(deep, d, q) { NotReached(deep, t, s, d, q); }
      EntryKept(deep, s, ds, q);
    }
    forall u | u in us ensures GoodUpdate(t, s1, u) && u.path != p {
      if !(u.path in t && GetValue(u.val) == t[u.path] && (u.path in s ==> !t[u.path].Obj?)) {
        var p0, k :| GoodField(t, s, p0, k, GetValue(u.val)) && u.path == FieldPath(p0, k);
        FieldIsNoPath(deep, t, s, p0, k);
        assert FieldPath(p0, k)[..|p0|] == p0;
      }
    }
    UpdatesKeep(deep, t, s1, us);
    ScalarStays(s1, us, p);
  }

  lemma {:induction false} MisfitStaysForever(deep: bool, t: State, states: seq<State>, p: Route)
    requires Rounds(deep, t, states) && WellFormed(deep, t, states[0])
    requires p in t && p in states[0] && t[p].Obj? && !states[0][p].Obj?
    ensures states[|states| - 1] != t
    decreases |states|
  {
    hide WellFormed, Round;
    if |states| == 1 {
      assert states[0][p] != t[p];
    } else {
      LaterRounds(deep, t, states);
      MisfitStays(deep, t, states[0], states[1], p);
      MisfitStaysForever(deep, t, states[1..], p);
    }
  }

  /** After as many rounds as there are paths that differ, the observed data is the intended data
      exactly when at first no path had a map intended and something else observed. */
  lemma ReachesExactly(deep: bool, t: State, states: seq<State>)
    requires Rounds(deep, t, states) && WellFormed(deep, t, states[0])
    requires |states| > |Disagree(t, states[0])|
    ensures states[|states| - 1] == t <==> MapsFit(t, states[0])
  {
    hide WellFormed, Rounds, Disagree;
    if MapsFit(t, states[0]) {
      Converges(deep, t, states);
    } else {
      var p :| p in t && p in states[0] && t[p].Obj? && !states[0][p].Obj?;
      MisfitStaysForever(deep, t, states, p);
    }
  }

  lemma SmallerSet(a: set<Route>, b: set<Route>)
    requires a < b
    ensures |a| < |b|
  {
    var x :| x in b && x !in a;
    assert a <= b - {x};
    SubsetSize(a, b - {x});
  }

  lemma {:induction false} SubsetSize(a: set<Route>, b: set<Route>)
    requires a <= b
    ensures |a| <= |b|
    decreases a
  {
    if a != {} {
      var x :| x in a;
      SubsetSize(a - {x}, b - {x});
    }
  }
}
