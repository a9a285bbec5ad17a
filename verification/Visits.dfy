/** What a traversal reports: the leaves it may visit, each once, all of them unless the
    visitor stops it. */
module Visits {
  import opened Gnmi
  import opened PathTree
  import opened Globs
  import opened Lex

  /** A visited leaf: its full path and its value. */
  type Visit = (Path, Value)

  /** The leaf at `q` is one that a query for `glob` asks for. */
  predicate Hit(t: Node, glob: Path, q: Path) {
    Look(t, q).Some? && QueryMatch(glob, q)
  }

  /** The pattern that is left for the children of a node. */
  function Rest(glob: Path): Path {
    if glob == [] || glob == ["*"] then [] else glob[1..]
  }

  predicate Enters(glob: Path, k: string) {
    glob == [] || glob[0] == "*" || glob[0] == k
  }

  predicate IsHit(t: Node, glob: Path, prefix: Path, x: Visit) {
    && |prefix| <= |x.0| && x.0[..|prefix|] == prefix
    && Hit(t, glob, x.0[|prefix|..])
    && Look(t, x.0[|prefix|..]) == Some(x.1)
  }

  ghost predicate Distinct(out: seq<Visit>) {
    forall i, j | 0 <= i < j < |out| :: out[i].0 != out[j].0
  }

  ghost predicate Reports(out: seq<Visit>, p: Path) {
    exists i :: 0 <= i < |out| && out[i].0 == p
  }

  /** The visitor is called for hits only, at most once each, and stops the traversal exactly
      when it returns an error. */
  ghost predicate Calls(t: Node, glob: Path, prefix: Path, f: Visit -> bool, out: seq<Visit>, err: bool) {
    && (forall i | 0 <= i < |out| :: IsHit(t, glob, prefix, out[i]))
    && Distinct(out)
    && (forall i | 0 <= i < |out| :: f(out[i]) <==> err && i == |out| - 1)
    && (err ==> out != [])
  }

  /** The result of a complete traversal of `t`: without an error, every hit was visited. */
  ghost predicate Traversal(t: Node, glob: Path, prefix: Path, f: Visit -> bool, out: seq<Visit>, err: bool) {
    && Calls(t, glob, prefix, f, out, err)
    && (!err ==> forall q | Hit(t, glob, q) :: Reports(out, prefix + q))
  }

  /** The result of traversing the children `done` of `t`. */
  ghost predicate Partial(t: Node, glob: Path, prefix: Path, f: Visit -> bool,
      done: set<string>, out: seq<Visit>, err: bool) {
    && Calls(t, glob, prefix, f, out, err)
    && (forall i | 0 <= i < |out| :: |out[i].0| > |prefix| && out[i].0[|prefix|] in done)
    && (!err ==> forall q | Hit(t, glob, q) && q != [] && q[0] in done :: Reports(out, prefix + q))
  }

  lemma QueryStep(glob: Path, q: Path)
    requires q != []
    ensures QueryMatch(glob, q) <==> Enters(glob, q[0]) && QueryMatch(Rest(glob), q[1..])
  {
  }

  /** A visit of the child `k` is a visit of its parent. */
  lemma ChildVisit(t: Node, glob: Path, prefix: Path, k: string, x: Visit)
    requires t.Branch? && k in t.m && Enters(glob, k)
    requires IsHit(t.m[k], Rest(glob), prefix + [k], x)
    ensures IsHit(t, glob, prefix, x) && |x.0| > |prefix| && x.0[|prefix|] == k
  {
    var q := x.0[|prefix|..];
    assert x.0[..|prefix| + 1] == prefix + [k];
    assert x.0[|prefix|] == (prefix + [k])[|prefix|];
    assert x.0[..|prefix|] == (prefix + [k])[..|prefix|];
    assert q != [] && q[0] == k && q[1..] == x.0[|prefix + [k]|..];
    QueryStep(glob, q);
    LookStep(t, q);
  }

  lemma EmptyTraversal(t: Node, glob: Path, prefix: Path, f: Visit -> bool)
    ensures Partial(t, glob, prefix, f, {}, [], false)
  {
  }

  /** A hit below one of the children done, or below `k`, is reported. */
  lemma ExtendHits(t: Node, glob: Path, prefix: Path,
      done: set<string>, out: seq<Visit>, k: string, sub: seq<Visit>, q: Path)
    requires t.Branch? && k in t.m && Hit(t, glob, q) && q != [] && q[0] in done + {k}
    requires q[0] in done ==> Reports(out, prefix + q)
    requires forall r | Hit(t.m[k], Rest(glob), r) :: Reports(sub, prefix + [k] + r)
    ensures Reports(out + sub, prefix + q)
  {
    if q[0] in done {
      var i :| 0 <= i < |out| && out[i].0 == prefix + q;
      assert (out + sub)[i].0 == prefix + q;
    } else {
      QueryStep(glob, q);
      LookStep(t, q);
      assert Reports(sub, prefix + [k] + q[1..]);
      assert prefix + [k] + q[1..] == prefix + q;
      var i :| 0 <= i < |sub| && sub[i].0 == prefix + q;
      assert (out + sub)[|out| + i].0 == prefix + q;
    }
  }

  /** Traversing one more child. */
  lemma ExtendTraversal(t: Node, glob: Path, prefix: Path, f: Visit -> bool,
                        done: set<string>, out: seq<Visit>, k: string, sub: seq<Visit>, err: bool)
    requires t.Branch? && k in t.m && k !in done && Enters(glob, k)
    requires Partial(t, glob, prefix, f, done, out, false)
    requires Traversal(t.m[k], Rest(glob), prefix + [k], f, sub, err)
    ensures Partial(t, glob, prefix, f, done + {k}, out + sub, err)
  {
    hide IsHit, Hit, Reports, Rest, Enters;
    forall i | 0 <= i < |sub|
      ensures IsHit(t, glob, prefix, sub[i]) && |sub[i].0| > |prefix| && sub[i].0[|prefix|] == k
    {
      ChildVisit(t, glob, prefix, k, sub[i]);
    }
    if !err {
      forall q | Hit(t, glob, q) && q != [] && q[0] in done + {k}
        ensures Reports(out + sub, prefix + q)
      {
        ExtendHits(t, glob, prefix, done, out, k, sub, q);
      }
    }
  }

  /** All children that the pattern enters have been traversed. */
  lemma FinishTraversal(t: Node, glob: Path, prefix: Path, f: Visit -> bool,
      done: set<string>, out: seq<Visit>, err: bool)
    requires t.Branch? && Partial(t, glob, prefix, f, done, out, err)
    requires !err ==> forall k | k in t.m && Enters(glob, k) :: k in done
    ensures Traversal(t, glob, prefix, f, out, err)
  {
    if !err {
      forall q | Hit(t, glob, q) ensures Reports(out, prefix + q) {
        assert q != [];
        QueryStep(glob, q);
        LookStep(t, q);
      }
    }
  }

  /** A leaf is visited exactly when the pattern stops at it. */
  lemma LeafTraversal(t: Node, glob: Path, prefix: Path, f: Visit -> bool)
    requires t.Leaf?
    ensures QueryMatch(glob, []) ==> Traversal(t, glob, prefix, f, [(prefix, t.v)], f((prefix, t.v)))
    ensures !QueryMatch(glob, []) ==> Traversal(t, glob, prefix, f, [], false)
  {
    var x := (prefix, t.v);
    assert x.0[|prefix|..] == [];
    forall q | Look(t, q).Some? ensures q == [] { if q != [] { LookStep(t, q); } }
    assert Reports([x], prefix) by { assert [x][0].0 == prefix; }
    assert prefix + [] == prefix;
  }

  lemma NilTraversal(t: Node, glob: Path, prefix: Path, f: Visit -> bool)
    requires t.Nil?
    ensures Traversal(t, glob, prefix, f, [], false)
  {
    forall q ensures Look(t, q).None? { if q != [] { LookStep(t, q); } }
  }

  // ---------------------------------------------------------------- sorted order

  ghost predicate Sorted(out: seq<Visit>) {
    forall i, j | 0 <= i < j < |out| :: PathLess(out[i].0, out[j].0)
  }

  lemma NothingSorted()
    ensures Sorted([])
  {
  }

  lemma {:induction false} PathLessAt(prefix: Path, p: Path, q: Path)
    requires |prefix| < |p| && |prefix| < |q| && p[..|prefix|] == prefix == q[..|prefix|]
    requires StrLess(p[|prefix|], q[|prefix|])
    ensures PathLess(p, q)
  {
    if prefix != [] {
      assert p[0] == prefix[0] == q[0];
      StrTotal(p[0], q[0]);
      assert p[1..][..|prefix| - 1] == prefix[1..] == q[1..][..|prefix| - 1];
      PathLessAt(prefix[1..], p[1..], q[1..]);
    }
  }

  /** Children taken in increasing order keep the visits sorted. */
  lemma ExtendSorted(t: Node, prefix: Path, f: Visit -> bool,
                     done: set<string>, out: seq<Visit>, k: string, sub: seq<Visit>, err: bool)
    requires t.Branch? && k in t.m && forall x | x in done :: StrLess(x, k)
    requires Partial(t, [], prefix, f, done, out, false) && Sorted(out)
    requires Traversal(t.m[k], [], prefix + [k], f, sub, err) && Sorted(sub)
    ensures Sorted(out + sub)
  {
    forall i, j | 0 <= i < |out| && 0 <= j < |sub| ensures PathLess(out[i].0, sub[j].0) {
      ChildVisit(t, [], prefix, k, sub[j]);
      PathLessAt(prefix, out[i].0, sub[j].0);
    }
  }

  /** Which paths a traversal without errors reports: exactly those of the flat map that match,
      with their values. */
  lemma TraversalReadsMap(t: Node, glob: Path, f: Visit -> bool, out: seq<Visit>)
    requires Traversal(t, glob, [], f, out, false)
    ensures forall p :: Reports(out, p) <==> p in Abs(t) && QueryMatch(glob, p)
    ensures forall i | 0 <= i < |out| :: out[i].0 in Abs(t) && out[i].1 == Abs(t)[out[i].0]
    ensures Distinct(out)
  {
    AbsLook(t);
    forall i | 0 <= i < |out|
      ensures Hit(t, glob, out[i].0) && Look(t, out[i].0) == Some(out[i].1)
    {
      assert out[i].0[0..] == out[i].0;
    }
    forall p | p in Abs(t) && QueryMatch(glob, p) ensures Reports(out, p) {
      assert Hit(t, glob, p);
      assert [] + p == p;
    }
  }
}
