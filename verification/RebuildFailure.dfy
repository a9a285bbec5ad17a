/** When adding a leaf to a document fails, and what a keyed last element does. */
module RebuildFailure {
  import opened Gnmi
  import opened Documents
  import opened Rebuild

  /** What an add goes on in: the field, the first entry with the key, or what it makes where there
      is none. */
  function Onward(x: Json, e: PathElem): Json {
    var m := Fields(x).GetOr(map[]);
    if e.key == map[] then (if e.name in m then m[e.name] else Null)
    else
      var l := if e.name in m && m[e.name].Arr? then m[e.name].items else [];
      var i := FindEntry(l, e.key);
      if i < |l| then l[i] else Obj(KeyLeaves(e.key))
  }

  /** Where the add is after the first `n` elements. */
  function Stop(d: Json, elems: seq<PathElem>, n: nat): Json
    requires n <= |elems|
    decreases n
  {
    if n == 0 then d else Onward(Stop(d, elems, n - 1), elems[n - 1])
  }

  /** The element cannot be added in `x`: there is neither nothing nor a map, or something else where
      a list should be.  A keyed last element is ignored where there is no map. */
  predicate Blocks(x: Json, e: PathElem, last: bool) {
    || (!x.Null? && !x.Obj? && !(last && e.key != map[]))
    || (x.Obj? && e.key != map[] && e.name in x.fields && !x.fields[e.name].Arr?)
  }

  lemma {:induction false} StopLater(d: Json, elems: seq<PathElem>, n: nat)
    requires elems != [] && 0 < n <= |elems|
    ensures Stop(d, elems, n) == Stop(Onward(d, elems[0]), elems[1..], n - 1)
    decreases n
  {
    if n > 1 { StopLater(d, elems, n - 1); }
  }

  ghost predicate Blocked(d: Json, elems: seq<PathElem>) {
    exists n :: BlockedAt(d, elems, n)
  }

  predicate BlockedAt(d: Json, elems: seq<PathElem>, n: int) {
    0 <= n < |elems| && Blocks(Stop(d, elems, n), elems[n], n == |elems| - 1)
  }

  lemma BlockedStep(d: Json, elems: seq<PathElem>)
    requires elems != []
    ensures Blocked(d, elems) <==>
              Blocks(d, elems[0], |elems| == 1) || Blocked(Onward(d, elems[0]), elems[1..])
  {
    var d', rest := Onward(d, elems[0]), elems[1..];
    hide Onward, Blocks;
    if n :| BlockedAt(d, elems, n) {
      if n > 0 {
        StopLater(d, elems, n);
        assert BlockedAt(d', rest, n - 1);
      }
    }
    if Blocks(d, elems[0], |elems| == 1) { assert BlockedAt(d, elems, 0); }
    if n :| BlockedAt(d', rest, n) {
      StopLater(d, elems, n + 1);
      assert BlockedAt(d, elems, n + 1);
    }
  }

  /** Adding a leaf fails exactly where something on its way is of the wrong kind. */
  lemma {:induction false} AddFailsExactly(d: Json, elems: seq<PathElem>, val: Json)
    ensures AddData(d, elems, val).Err? <==> Blocked(d, elems)
    decreases |elems|
  {
    if elems != [] {
      BlockedStep(d, elems);
      var e, rest := elems[0], elems[1..];
      hide Blocked;
      if rest == [] {
        NotBlocked(Onward(d, e), rest);
      } else {
        AddFailsExactly(Onward(d, e), rest, val);
      }
    }
  }

  lemma NotBlocked(d: Json, elems: seq<PathElem>)
    requires elems == []
    ensures !Blocked(d, elems)
  {
  }

  /** A keyed last element always makes a new entry at the end of the list, with the value and the key
      leaves, even if there is one with the key already; where there is no map it does nothing. */
  lemma KeyedLastAppends(d: Json, e: string, k: map<string, string>, val: Json)
    requires k != map[]
    ensures var r := AddData(d, [PathElem(e, k)], val);
            && (!d.Null? && !d.Obj? ==> r == Ok(d))
            && (d.Null? || (d.Obj? && (e in d.fields ==> d.fields[e].Arr?)) ==>
                  var old_ := if d.Obj? && e in d.fields then d.fields[e].items else [];
                  && r.Ok? && r.value.Obj? && e in r.value.fields && r.value.fields[e].Arr?
                  && (forall f | f != e :: SameField(d, r.value, f))
                  && var l := r.value.fields[e].items;
                     && |l| == |old_| + 1 && l[..|old_|] == old_ && Matches(l[|old_|], k)
                     && l[|old_|].fields.Keys == k.Keys + {e} && (e !in k ==> l[|old_|].fields[e] == val))
  {
    assert [PathElem(e, k)][1..] == [];
    var x := Obj(map[e := val] + KeyLeaves(k));
    assert x.fields.Keys == k.Keys + {e};
  }

  /** The two documents have the same in the field. */
  predicate SameField(x: Json, y: Json, f: string) {
    var a, b := Fields(x).GetOr(map[]), Fields(y).GetOr(map[]);
    (f in a <==> f in b) && (f in a ==> a[f] == b[f])
  }
}
