/** The two glob rules of the path tree, how they relate, and deletion as a filter on the
    flat map. */
module Globs {
  import opened Gnmi
  import opened PathTree

  /** The query rule: a trailing `*` matches any number of elements, zero included; any other
      `*` matches exactly one; a path also matches everything below it. */
  predicate QueryMatch(glob: Path, p: Path) {
    if glob == [] || glob == ["*"] then true
    else p != [] && (glob[0] == "*" || glob[0] == p[0]) && QueryMatch(glob[1..], p[1..])
  }

  /** The delete rule: here any `*` also matches a leaf that ends at its depth. */
  predicate DeleteMatch(glob: Path, p: Path) {
    if glob == [] then true
    else if glob[0] == "*" then p == [] || DeleteMatch(glob[1..], p[1..])
    else p != [] && glob[0] == p[0] && DeleteMatch(glob[1..], p[1..])
  }

  /** Element by element as far as the pattern goes. */
  predicate Agrees(glob: Path, p: Path) {
    forall i | 0 <= i < |glob| && i < |p| :: glob[i] == "*" || glob[i] == p[i]
  }

  /** A query matches a path exactly when, without a star at its end, it agrees with a beginning of
      the path. */
  lemma {:induction false} QueryMatchMeaning(glob: Path, p: Path)
    ensures var core := if glob != [] && glob[|glob| - 1] == "*" then glob[..|glob| - 1] else glob;
            QueryMatch(glob, p) <==> |core| <= |p| && Agrees(core, p)
    decreases |glob|
  {
    var core := if glob != [] && glob[|glob| - 1] == "*" then glob[..|glob| - 1] else glob;
    if glob != [] && glob != ["*"] && p != [] {
      QueryMatchMeaning(glob[1..], p[1..]);
      if |glob| > 1 { assert glob[1..][|glob| - 2] == glob[|glob| - 1]; }
      var rest := if glob[1..] != [] && glob[1..][|glob| - 2] == "*" then glob[1..][..|glob| - 2] else glob[1..];
      assert core == [glob[0]] + rest;
      AgreesStep(core, p);
    }
  }

  lemma AgreesStep(glob: Path, p: Path)
    requires glob != [] && p != []
    ensures Agrees(glob, p) <==> (glob[0] == "*" || glob[0] == p[0]) && Agrees(glob[1..], p[1..])
  {
    if Agrees(glob, p) {
      forall i | 0 <= i < |glob[1..]| && i < |p[1..]| ensures glob[1..][i] == "*" || glob[1..][i] == p[1..][i] {
        assert glob[i + 1] == "*" || glob[i + 1] == p[i + 1];
      }
    }
    if (glob[0] == "*" || glob[0] == p[0]) && Agrees(glob[1..], p[1..]) {
      forall i | 0 <= i < |glob| && i < |p| ensures glob[i] == "*" || glob[i] == p[i] {
        if i > 0 { assert glob[1..][i - 1] == "*" || glob[1..][i - 1] == p[1..][i - 1]; }
      }
    }
  }

  /** A delete matches a path exactly when the two agree as far as both go, and the path does not end
      before the pattern, unless at a star. */
  lemma {:induction false} DeleteMatchMeaning(glob: Path, p: Path)
    ensures DeleteMatch(glob, p) <==> Agrees(glob, p) && (|glob| <= |p| || glob[|p|] == "*")
    decreases |glob|
  {
    if glob != [] && p != [] {
      DeleteMatchMeaning(glob[1..], p[1..]);
      AgreesStep(glob, p);
    }
  }

  ghost predicate OnlyFinalStar(glob: Path) {
    forall i :: 0 <= i < |glob| - 1 ==> glob[i] != "*"
  }

  lemma {:induction false} QueryMatchImpliesDeleteMatch(glob: Path, p: Path)
    ensures QueryMatch(glob, p) ==> DeleteMatch(glob, p)
  {
    if QueryMatch(glob, p) && glob != [] && glob != ["*"] {
      QueryMatchImpliesDeleteMatch(glob[1..], p[1..]);
    }
  }

  lemma {:induction false} DeleteMatchImpliesQueryMatch(glob: Path, p: Path)
    requires OnlyFinalStar(glob)
    ensures DeleteMatch(glob, p) ==> QueryMatch(glob, p)
  {
    if DeleteMatch(glob, p) && glob != [] && glob != ["*"] {
      assert forall i :: 0 <= i < |glob[1..]| - 1 ==> glob[1..][i] == glob[i + 1];
      DeleteMatchImpliesQueryMatch(glob[1..], p[1..]);
    }
  }

  lemma {:induction false} StarCutsPath(glob: Path, i: nat)
    requires i < |glob| - 1 && glob[i] == "*"
    ensures DeleteMatch(glob, glob[..i]) && !QueryMatch(glob, glob[..i])
    decreases i
  {
    if i > 0 {
      assert glob[..i][1..] == glob[1..][..i - 1];
      StarCutsPath(glob[1..], i - 1);
    }
  }

  /** The two rules agree on every path exactly for the patterns without a non-final `*`. */
  lemma RulesAgree(glob: Path)
    ensures (forall p :: QueryMatch(glob, p) <==> DeleteMatch(glob, p)) <==> OnlyFinalStar(glob)
  {
    if OnlyFinalStar(glob) {
      forall p ensures QueryMatch(glob, p) <==> DeleteMatch(glob, p) {
        QueryMatchImpliesDeleteMatch(glob, p);
        DeleteMatchImpliesQueryMatch(glob, p);
      }
    } else {
      var i :| 0 <= i < |glob| - 1 && glob[i] == "*";
      StarCutsPath(glob, i);
      assert QueryMatch(glob, glob[..i]) != DeleteMatch(glob, glob[..i]);
    }
  }

  // ---------------------------------------------------------------- deletion

  /** The leaf at `p` matches the pattern and satisfies the condition. */
  predicate Doomed(t: Node, glob: Path, cond: Value -> bool, p: Path) {
    Look(t, p).Some? && DeleteMatch(glob, p) && cond(Look(t, p).value)
  }

  /** What the parent sees at `p` after one call of internalDelete. */
  function LookAfter(d: Deleted, p: Path): Option<Value> {
    if d.remove then None else Look(d.tree, p)
  }

  lemma {:induction false} InternalDeleteLook(t: Node, glob: Path, cond: Value -> bool, p: Path)
    requires Normal(t)
    ensures LookAfter(InternalDelete(t, glob, cond), p)
         == if Doomed(t, glob, cond, p) then None else Look(t, p)
    ensures !InternalDelete(t, glob, cond).remove ==> Normal(InternalDelete(t, glob, cond).tree)
    decreases t
  {
    var d := InternalDelete(t, glob, cond);
    if p != [] { LookStep(t, p); LookStep(d.tree, p); }
    if t.Branch? {
      var p' := if p == [] then [] else p[1..];
      if glob == [] || glob[0] == "*" {
        forall k | k in t.m {
          InternalDeleteLook(t.m[k], if glob == [] then glob else glob[1..], cond, p');
        }
      } else if glob[0] in t.m {
        InternalDeleteLook(t.m[glob[0]], glob[1..], cond, p');
      }
    }
  }

  /** DeleteConditional is a filter on the flat map: the survivors are exactly the leaves that do
      not both match the pattern and satisfy the condition.  The result is in normal form, so
      ancestors left without children are gone. */
  lemma DeleteRefinesFilter(t: Node, glob: Path, cond: Value -> bool)
    requires NormalRoot(t)
    ensures NormalRoot(DeleteConditional(t, glob, cond))
    ensures Abs(DeleteConditional(t, glob, cond))
         == map p | p in Abs(t) && !(DeleteMatch(glob, p) && cond(Abs(t)[p])) :: Abs(t)[p]
  {
    var t' := DeleteConditional(t, glob, cond);
    var want := map p | p in Abs(t) && !(DeleteMatch(glob, p) && cond(Abs(t)[p])) :: Abs(t)[p];
    AbsLook(t);
    if t.Nil? {
      forall p ensures Look(t, p).None? { if p != [] { LookStep(t, p); } }
    } else {
      InternalDeleteLook(t, glob, cond, []);
    }
    forall p ensures Look(t', p) == if p in want then Some(want[p]) else None {
      if !t.Nil? { InternalDeleteLook(t, glob, cond, p); }
      if t'.Nil? && p != [] { LookStep(t', p); }
    }
    AbsEqual(t', want);
  }
}
