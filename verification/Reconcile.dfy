/** The delta between the intended and the observed resource data. */
module Reconcile {
  import opened Gnmi
  import opened XPath
  import RT = XPathRoundTrip

  type Route = seq<PathElem>

  // ---------------------------------------------------------------- comparing two values

  datatype Operation = DeleteOp(k: string) | UpdateOp(k: string, v: Json) | CreateOp

  /** The operations that bring the value `s` closer to `t`. */
  predicate Wanted(t: Json, s: Json, op: Operation) {
    match op
    case DeleteOp(k) => t.Obj? && if s.Obj? then k in s.fields && k !in t.fields else k in t.fields
    case UpdateOp(k, v) =>
      t.Obj? && s.Obj? && k in t.fields && v == t.fields[k] && (k !in s.fields || s.fields[k] != v)
    case CreateOp => !t.Obj? && t != s
  }

  /** All comparisons that are made can be made. */
  predicate Comparable(t: Json, s: Json) {
    if t.Obj? then s.Obj? ==> forall k | k in t.fields && k in s.fields :: CanCompare(t.fields[k], s.fields[k])
    else CanCompare(t, s)
  }

  /** CompareJSONData. */
  method CompareJSONData(t: Json, s: Json) returns (ops: seq<Operation>)
    requires Comparable(t, s)
    ensures forall op :: op in ops <==> Wanted(t, s, op)
  {
    ops := [];
    if t.Obj? && s.Obj? {
      var todo := s.fields.Keys;
      while todo != {}
        invariant todo <= s.fields.Keys
        invariant forall op :: op in ops <==> op.DeleteOp? && Wanted(t, s, op) && op.k !in todo
        decreases todo
      {
        var k :| k in todo;
        todo := todo - {k};
        if k !in t.fields { ops := ops + [DeleteOp(k)]; }
      }
      todo := t.fields.Keys;
      while todo != {}
        invariant todo <= t.fields.Keys
        invariant forall op :: op in ops <==> Wanted(t, s, op) && (op.UpdateOp? ==> op.k !in todo)
        decreases todo
      {
        var k :| k in todo;
        todo := todo - {k};
        var differ := true;
        if k in s.fields {
          var same := Same(t.fields[k], s.fields[k]);
          differ := !same;
        }
        if differ { ops := ops + [UpdateOp(k, t.fields[k])]; }
      }
    } else if t.Obj? {
      var todo := t.fields.Keys;
      while todo != {}
        invariant todo <= t.fields.Keys
        invariant forall op :: op in ops <==> op.DeleteOp? && Wanted(t, s, op) && op.k !in todo
        decreases todo
      {
        var k :| k in todo;
        todo := todo - {k};
        ops := ops + [DeleteOp(k)];
      }
    } else {
      var same := Same(t, s);
      if !same { ops := [CreateOp]; }
    }
  }

  // ---------------------------------------------------------------- the delta

  /** The two paths have the same printed form. */
  ghost predicate SameText(p: Route, q: Route) {
    exists t :: Printed(p, true, t) && Printed(q, true, t)
  }

  method CompareText(p: Route, q: Route) returns (same: bool)
    ensures same <==> SameText(p, q)
  {
    var a := GnmiPath2XPath(p, true);
    var b := GnmiPath2XPath(q, true);
    same := a == b;
    if SameText(p, q) {
      var t :| Printed(p, true, t) && Printed(q, true, t);
      RT.PrintUnique(p, true, a, t);
      RT.PrintUnique(q, true, b, t);
    }
  }

  ghost predicate Known(p: Route, us: seq<Update>) {
    exists j | 0 <= j < |us| :: SameText(us[j].path, p)
  }

  /** Observed but not intended. */
  ghost predicate Stale(x1: seq<Update>, x2: seq<Update>, d: Route) {
    exists l | 0 <= l < |x2| :: x2[l].path == d && !Known(d, x1)
  }

  /** One of the first `n` intended updates, and not observed. */
  ghost predicate Missing(x1: seq<Update>, x2: seq<Update>, n: nat, u: Update)
    requires n <= |x1|
  {
    exists j | 0 <= j < n :: x1[j] == u && !Known(u.path, x2)
  }

  ghost predicate AnyWanted(t: Json, s: Json) {
    exists op :: Wanted(t, s, op)
  }

  ghost predicate Differ(u1: Update, u2: Update) {
    SameText(u1.path, u2.path) && AnyWanted(GetValue(u1.val), GetValue(u2.val))
  }

  ghost predicate NoneDiffer(x1: seq<Update>, x2: seq<Update>, n: nat)
    requires n <= |x1|
  {
    forall j, l | 0 <= j < n && 0 <= l < |x2| :: !Differ(x1[j], x2[l])
  }

  /** The first pair that differs. */
  ghost predicate FirstDiffer(x1: seq<Update>, x2: seq<Update>, j: nat, l: nat) {
    && j < |x1| && l < |x2| && Differ(x1[j], x2[l])
    && NoneDiffer(x1, x2, j) && forall l' | 0 <= l' < l :: !Differ(x1[j], x2[l'])
  }

  function FieldPath(p: Route, k: string): Route {
    p + [PathElem(k, map[])]
  }

  ghost predicate PatchDelete(u1: Update, s: Json, d: Route) {
    exists k :: Wanted(GetValue(u1.val), s, DeleteOp(k)) && d == FieldPath(u1.path, k)
  }

  ghost predicate PatchUpdate(u1: Update, s: Json, u: Update) {
    || (exists k, v :: Wanted(GetValue(u1.val), s, UpdateOp(k, v)) && u == Update(FieldPath(u1.path, k), JsonVal(v)))
    || (Wanted(GetValue(u1.val), s, CreateOp) && u == u1)
  }

  /** The stale paths among the first `n` observed ones, in their order. */
  ghost function StaleSeq(x1: seq<Update>, x2: seq<Update>, n: nat): seq<Route>
    requires n <= |x2|
  {
    if n == 0 then []
    else StaleSeq(x1, x2, n - 1) + if Known(x2[n - 1].path, x1) then [] else [x2[n - 1].path]
  }

  /** What is missing of the first `n` intended updates, in their order. */
  ghost function MissingSeq(x1: seq<Update>, x2: seq<Update>, n: nat): seq<Update>
    requires n <= |x1|
  {
    if n == 0 then []
    else MissingSeq(x1, x2, n - 1) + if Known(x1[n - 1].path, x2) then [] else [x1[n - 1]]
  }

  lemma {:induction false} StaleMembers(x1: seq<Update>, x2: seq<Update>, n: nat)
    requires n <= |x2|
    ensures forall d :: d in StaleSeq(x1, x2, n) <==> exists l | 0 <= l < n :: x2[l].path == d && !Known(d, x1)
  {
    hide Known;
    if n > 0 { StaleMembers(x1, x2, n - 1); }
  }

  lemma {:induction false} MissingMembers(x1: seq<Update>, x2: seq<Update>, n: nat)
    requires n <= |x1|
    ensures forall u :: u in MissingSeq(x1, x2, n) <==> exists j | 0 <= j < n :: x1[j] == u && !Known(u.path, x2)
  {
    hide Known;
    if n > 0 { MissingMembers(x1, x2, n - 1); }
  }

  ghost predicate IsPatch(u1: Update, s: Json, deletes: seq<Route>, updates: seq<Update>) {
    && (forall d :: d in deletes <==> PatchDelete(u1, s, d))
    && (forall u :: u in updates <==> PatchUpdate(u1, s, u))
  }

  /** The patch of the pair follows what came before it; its own order is that of the maps. */
  ghost predicate DeltaAt(x1: seq<Update>, x2: seq<Update>, j: nat, l: nat, deletes: seq<Route>, updates: seq<Update>)
    requires j < |x1| && l < |x2|
  {
    exists ds, us :: IsPatch(x1[j], GetValue(x2[l].val), ds, us)
      && deletes == StaleSeq(x1, x2, |x2|) + ds && updates == MissingSeq(x1, x2, j) + us
  }

  /** Two deletes at the end change places. */
  function Swapped(ds: seq<Route>): seq<Route> {
    if |ds| == 2 then [ds[1], ds[0]] else ds
  }

  ghost predicate FullDelta(x1: seq<Update>, x2: seq<Update>, deletes: seq<Route>, updates: seq<Update>) {
    deletes == Swapped(StaleSeq(x1, x2, |x2|)) && updates == MissingSeq(x1, x2, |x1|)
  }

  /** The stale paths come in the order in which they were observed; if there are exactly two, and no
      pair differs, the delta has them in the opposite order. */
  lemma {:induction false} StaleInOrder(x1: seq<Update>, x2: seq<Update>, n: nat) returns (at: seq<nat>)
    requires n <= |x2|
    ensures forall i, j | 0 <= i < j < |at| :: at[i] < at[j]
    ensures forall l :: l in at <==> 0 <= l < n && !Known(x2[l].path, x1)
    ensures |StaleSeq(x1, x2, n)| == |at|
    ensures forall i | 0 <= i < |at| :: at[i] < |x2| && StaleSeq(x1, x2, n)[i] == x2[at[i]].path
  {
    hide Known;
    at := [];
    if n > 0 {
      at := StaleInOrder(x1, x2, n - 1);
      if !Known(x2[n - 1].path, x1) {
        assert forall l | l in at :: l < n - 1;
        forall i | 0 <= i < |at| ensures at[i] < n - 1 { assert at[i] in at; }
        at := at + [n - 1];
      }
    }
  }

  lemma TwoStaleSwapped(x1: seq<Update>, x2: seq<Update>, deletes: seq<Route>, updates: seq<Update>, a: nat, b: nat)
    requires IsDelta(x1, x2, deletes, updates) && NoneDiffer(x1, x2, |x1|)
    requires a < b < |x2| && forall l | 0 <= l < |x2| :: !Known(x2[l].path, x1) <==> l == a || l == b
    ensures deletes == [x2[b].path, x2[a].path]
  {
    var at := StaleInOrder(x1, x2, |x2|);
    hide Known, StaleSeq, Differ;
    OnlyTwo(at, a, b);
  }

  lemma OnlyTwo(at: seq<nat>, a: nat, b: nat)
    requires a < b && forall i, j | 0 <= i < j < |at| :: at[i] < at[j]
    requires forall l :: l in at <==> l == a || l == b
    ensures at == [a, b]
  {
    assert a in at && b in at;
    var i :| 0 <= i < |at| && at[i] == a;
    var j :| 0 <= j < |at| && at[j] == b;
    forall k | 0 <= k < |at| ensures at[k] == a || at[k] == b { assert at[k] in at; }
    assert i < j && at[0] == a && at[1] == b;
    assert at[|at| - 1] == b;
  }

  lemma FullMembers(x1: seq<Update>, x2: seq<Update>, deletes: seq<Route>, updates: seq<Update>)
    requires FullDelta(x1, x2, deletes, updates)
    ensures forall d :: d in deletes <==> Stale(x1, x2, d)
    ensures forall u :: u in updates <==> Missing(x1, x2, |x1|, u)
  {
    hide Known;
    StaleMembers(x1, x2, |x2|);
    MissingMembers(x1, x2, |x1|);
    var ds := StaleSeq(x1, x2, |x2|);
    assert forall d :: d in Swapped(ds) <==> d in ds;
  }

  lemma PatchedMembers(x1: seq<Update>, x2: seq<Update>, j: nat, l: nat, deletes: seq<Route>, updates: seq<Update>)
    requires j < |x1| && l < |x2| && DeltaAt(x1, x2, j, l, deletes, updates)
    ensures forall d :: d in deletes <==> Stale(x1, x2, d) || PatchDelete(x1[j], GetValue(x2[l].val), d)
    ensures forall u :: u in updates <==> Missing(x1, x2, j, u) || PatchUpdate(x1[j], GetValue(x2[l].val), u)
  {
    hide Known, PatchDelete, PatchUpdate;
    StaleMembers(x1, x2, |x2|);
    MissingMembers(x1, x2, j);
  }

  /** What is reported, in order: everything stale or missing if no pair differs; otherwise
      everything stale, what is missing before the first pair that differs, and the patch of that
      pair. */
  ghost predicate IsDelta(x1: seq<Update>, x2: seq<Update>, deletes: seq<Route>, updates: seq<Update>) {
    || (NoneDiffer(x1, x2, |x1|) && FullDelta(x1, x2, deletes, updates))
    || (exists j: nat, l: nat :: FirstDiffer(x1, x2, j, l) && DeltaAt(x1, x2, j, l, deletes, updates))
  }

  /** Two values under one path differ when they are not equal; except that an empty map does not
      differ from what is no map. */
  lemma DifferMeaning(u1: Update, u2: Update)
    ensures var t, s := GetValue(u1.val), GetValue(u2.val);
            Differ(u1, u2) <==> SameText(u1.path, u2.path) && t != s && !(t == Obj(map[]) && !s.Obj?)
  {
    hide SameText;
    var t, s := GetValue(u1.val), GetValue(u2.val);
    if t.Obj? && s.Obj? {
      if k :| k in s.fields && k !in t.fields { assert Wanted(t, s, DeleteOp(k)); }
      if k :| k in t.fields && (k !in s.fields || s.fields[k] != t.fields[k]) {
        assert Wanted(t, s, UpdateOp(k, t.fields[k]));
      }
      if t != s { assert t.fields != s.fields; }
    } else if t.Obj? {
      if k :| k in t.fields { assert Wanted(t, s, DeleteOp(k)); }
      if t.fields != map[] { assert t.fields.Keys != {}; }
    } else if t != s {
      assert Wanted(t, s, CreateOp);
    }
  }

  lemma SomeMember(us: seq<Update>)
    ensures us != [] ==> exists u :: u in us
  {
    if us != [] { assert us[0] in us; }
  }

  /** Where a map is intended and something else observed, the patch deletes every intended field and
      updates nothing. */
  lemma MisfitIsDeleted(u1: Update, s: Json, deletes: seq<Route>, updates: seq<Update>)
    requires IsPatch(u1, s, deletes, updates) && GetValue(u1.val).Obj? && !s.Obj?
    ensures forall d :: d in deletes <==> exists k :: k in GetValue(u1.val).fields && d == FieldPath(u1.path, k)
    ensures updates == []
  {
    forall d ensures d in deletes <==> exists k :: k in GetValue(u1.val).fields && d == FieldPath(u1.path, k) {
      if k :| k in GetValue(u1.val).fields && d == FieldPath(u1.path, k) {
        assert Wanted(GetValue(u1.val), s, DeleteOp(k));
        assert PatchDelete(u1, s, d);
      }
    }
    assert forall u :: !PatchUpdate(u1, s, u);
    SomeMember(updates);
  }

  method Find(p: Route, us: seq<Update>) returns (found: bool)
    ensures found <==> Known(p, us)
  {
    hide SameText;
    found := false;
    var j := 0;
    while j < |us|
      invariant 0 <= j <= |us|
      invariant found <==> exists j' | 0 <= j' < j :: SameText(us[j'].path, p)
    {
      var same := CompareText(us[j].path, p);
      if same { found := true; }
      j := j + 1;
    }
  }

  /** The first loop of FindResourceDeltaGnmi. */
  method StalePaths(x1: seq<Update>, x2: seq<Update>) returns (deletes: seq<Route>)
    ensures deletes == StaleSeq(x1, x2, |x2|)
  {
    hide Known;
    deletes := [];
    var l := 0;
    while l < |x2|
      invariant 0 <= l <= |x2| && deletes == StaleSeq(x1, x2, l)
    {
      var found := Find(x2[l].path, x1);
      if !found { deletes := deletes + [x2[l].path]; }
      l := l + 1;
    }
  }

  /** The reported form of a patch. */
  method Patch(u1: Update, s: Json, ops: seq<Operation>) returns (deletes: seq<Route>, updates: seq<Update>)
    requires forall op :: op in ops <==> Wanted(GetValue(u1.val), s, op)
    ensures IsPatch(u1, s, deletes, updates)
  {
    deletes, updates := [], [];
    var i := 0;
    while i < |ops|
      invariant 0 <= i <= |ops|
      invariant forall d :: d in deletes <==> exists k :: DeleteOp(k) in ops[..i] && d == FieldPath(u1.path, k)
      invariant forall u :: u in updates <==>
        || (CreateOp in ops[..i] && u == u1)
        || exists k, v :: UpdateOp(k, v) in ops[..i] && u == Update(FieldPath(u1.path, k), JsonVal(v))
    {
      assert ops[..i + 1] == ops[..i] + [ops[i]];
      match ops[i] {
        case DeleteOp(k) => deletes := deletes + [FieldPath(u1.path, k)];
        case UpdateOp(k, v) => updates := updates + [Update(FieldPath(u1.path, k), JsonVal(v))];
        case CreateOp => updates := updates + [u1];
      }
      i := i + 1;
    }
    assert ops[..i] == ops;
  }

  /** FindResourceDeltaGnmi. */
  method FindResourceDelta(x1: seq<Update>, x2: seq<Update>) returns (deletes: seq<Route>, updates: seq<Update>)
    requires forall u, w | u in x1 && w in x2 && SameText(u.path, w.path)
        :: Comparable(GetValue(u.val), GetValue(w.val))
    ensures IsDelta(x1, x2, deletes, updates)
  {
    hide SameText, Wanted, Comparable, IsPatch;
    deletes := StalePaths(x1, x2);
    updates := [];
    var j := 0;
    while j < |x1|
      invariant 0 <= j <= |x1| && NoneDiffer(x1, x2, j)
      invariant deletes == StaleSeq(x1, x2, |x2|) && updates == MissingSeq(x1, x2, j)
    {
      var found := false;
      var l := 0;
      while l < |x2|
        invariant 0 <= l <= |x2| && forall l' | 0 <= l' < l :: !Differ(x1[j], x2[l'])
        invariant found <==> exists l' | 0 <= l' < l :: SameText(x2[l'].path, x1[j].path)
      {
        var same := CompareText(x1[j].path, x2[l].path);
        SameTextSymmetric(x1[j].path, x2[l].path);
        if same {
          found := true;
          assert x1[j] in x1 && x2[l] in x2;
          var patch := CompareJSONData(GetValue(x1[j].val), GetValue(x2[l].val));
          if patch != [] {
            assert patch[0] in patch;
            var ds, us := Patch(x1[j], GetValue(x2[l].val), patch);
            deletes, updates := deletes + ds, updates + us;
            assert FirstDiffer(x1, x2, j, l) && DeltaAt(x1, x2, j, l, deletes, updates);
            return;
          }
        }
        l := l + 1;
      }
      assert found <==> Known(x1[j].path, x2);
      if !found { updates := updates + [x1[j]]; }
      j := j + 1;
    }
    if |deletes| == 2 { deletes := [deletes[1], deletes[0]]; }
  }

  lemma SameTextSymmetric(p: Route, q: Route)
    ensures SameText(p, q) <==> SameText(q, p)
  {
  }
}
