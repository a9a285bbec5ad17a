/** The path tree as a value: what one call of each octree operation computes, and the
    flat map from paths to values that it stands for. */
module PathTree {
  import opened Gnmi

  type Value = Notification

  datatype Node = Nil | Leaf(v: Value) | Branch(m: map<string, Node>)

  // ---------------------------------------------------------------- operations

  function NewBranch(path: Path, v: Value, elem: string): Node {
    if path == [] then
      if IsContainer(v) then Branch(map[elem := Leaf(v)]) else Leaf(v)
    else
      Branch(map[path[0] := NewBranch(path[1..], v, "")])
  }

  datatype Added = Added(tree: Node, ok: bool)

  function TerminalAdd(t: Node, v: Value): Added {
    if IsContainer(v) then Added(t, true)
    else if t.Branch? then Added(t, false)
    else Added(Leaf(v), true)
  }

  function Children(t: Node): map<string, Node> {
    if t.Branch? then t.m else map[]
  }

  /** The node below `t` that `Add` goes on with: the child that exists, or a new one. */
  function NextNode(t: Node, path: Path, v: Value): Node
    requires path != []
  {
    if path[0] in Children(t) then Children(t)[path[0]] else NewBranch(path[1..], v, path[0])
  }

  function Add(t: Node, path: Path, v: Value): Added
    decreases path
  {
    if path == [] then TerminalAdd(t, v)
    else if t.Leaf? then Added(t, false)
    else
      var sub := Add(NextNode(t, path, v), path[1..], v);
      Added(Branch(Children(t)[path[0] := sub.tree]), sub.ok)
  }

  function Get(t: Node, path: Path): Option<Node>
    decreases path
  {
    if path == [] then Some(t)
    else if path[0] in Children(t) then Get(Children(t)[path[0]], path[1..])
    else None
  }

  /** The tree with the node at `q` replaced. */
  function SetAt(t: Node, q: Path, n: Node): Node
    decreases q
  {
    if q == [] then n
    else if q[0] in Children(t) then Branch(Children(t)[q[0] := SetAt(Children(t)[q[0]], q[1..], n)])
    else t
  }

  datatype Deleted = Deleted(tree: Node, remove: bool)

  /** One call of internalDelete: the node it leaves behind, and whether the parent drops it. */
  function InternalDelete(t: Node, sub: Path, cond: Value -> bool): Deleted
    decreases t
  {
    if sub == [] || sub[0] == "*" then
      match t
      case Nil => Deleted(t, false)
      case Leaf(v) => Deleted(t, cond(v))
      case Branch(m) =>
        var rest := if sub == [] then sub else sub[1..];
        var kept := map k | k in m && !InternalDelete(m[k], rest, cond).remove
                      :: InternalDelete(m[k], rest, cond).tree;
        Deleted(Branch(kept), kept == map[])
    else if t.Branch? && sub[0] in t.m then
      var d := InternalDelete(t.m[sub[0]], sub[1..], cond);
      var kept := if d.remove then t.m - {sub[0]} else t.m[sub[0] := d.tree];
      Deleted(Branch(kept), kept == map[])
    else
      Deleted(t, false)
  }

  function DeleteConditional(t: Node, sub: Path, cond: Value -> bool): Node {
    var d := InternalDelete(t, sub, cond);
    if d.remove then Nil else d.tree
  }

  // ---------------------------------------------------------------- the flat map

  ghost function Leaves(t: Node): set<Path>
    decreases t
  {
    match t
    case Nil => {}
    case Leaf(v) => {[]}
    case Branch(m) => set k, q | k in m && q in Leaves(m[k]) :: [k] + q
  }

  function Look(t: Node, p: Path): Option<Value>
    decreases p
  {
    match Get(t, p)
    case None => None
    case Some(n) => if n.Leaf? then Some(n.v) else None
  }

  /** The flat map a tree stands for. */
  ghost function Abs(t: Node): map<Path, Value> {
    map p | p in Leaves(t) && Look(t, p).Some? :: Look(t, p).value
  }

  /** Below the root there is neither an empty branch nor a nil node. */
  ghost predicate Normal(t: Node)
    decreases t
  {
    match t
    case Nil => false
    case Leaf(v) => true
    case Branch(m) => m != map[] && forall k | k in m :: Normal(m[k])
  }

  ghost predicate NormalRoot(t: Node) {
    t.Nil? || Normal(t)
  }

  ghost predicate ProperPrefix(p: Path, q: Path) {
    |p| < |q| && q[..|p|] == p
  }

  /** No path of the map lies above another one. */
  ghost predicate PrefixFree(m: map<Path, Value>) {
    forall p, q | p in m && q in m :: !ProperPrefix(p, q)
  }

  // ---------------------------------------------------------------- basic facts

  lemma LookStep(t: Node, p: Path)
    requires p != []
    ensures Look(t, p) == if p[0] in Children(t) then Look(Children(t)[p[0]], p[1..]) else None
  {
  }

  lemma {:induction false} LeavesLook(t: Node, p: Path)
    ensures p in Leaves(t) <==> Look(t, p).Some?
    decreases t
  {
    match t
    case Nil =>
      if p != [] { LookStep(t, p); }
    case Leaf(v) =>
      if p != [] { LookStep(t, p); }
    case Branch(m) =>
      if p == [] {
      } else {
        LookStep(t, p);
        if p[0] in m {
          LeavesLook(m[p[0]], p[1..]);
          if p[1..] in Leaves(m[p[0]]) {
            assert [p[0]] + p[1..] == p;
          }
          if p in Leaves(t) {
            var k, q :| k in m && q in Leaves(m[k]) && p == [k] + q;
            assert k == p[0] && q == p[1..];
          }
        }
      }
  }

  lemma AbsLook(t: Node)
    ensures forall p :: p in Abs(t) <==> Look(t, p).Some?
    ensures forall p :: p in Abs(t) ==> Abs(t)[p] == Look(t, p).value
  {
    forall p ensures p in Leaves(t) <==> Look(t, p).Some? {
      LeavesLook(t, p);
    }
  }

  /** Two trees with the same lookups stand for the same map. */
  lemma AbsEqual(t: Node, m: map<Path, Value>)
    requires forall p :: Look(t, p) == if p in m then Some(m[p]) else None
    ensures Abs(t) == m
  {
    AbsLook(t);
  }

  /** A normal node has a leaf at or below it. */
  lemma {:induction false} SomeLeaf(t: Node) returns (p: Path)
    requires Normal(t)
    ensures Look(t, p).Some?
    decreases t
  {
    if t.Leaf? {
      p := [];
    } else {
      var k :| k in t.m;
      var q := SomeLeaf(t.m[k]);
      p := [k] + q;
      assert p[1..] == q;
      LookStep(t, p);
    }
  }

  lemma {:induction false} GetAppend(t: Node, p: Path, q: Path)
    ensures Get(t, p + q) == if Get(t, p).Some? then Get(Get(t, p).value, q) else None
    decreases p
  {
    if p == [] {
      assert p + q == q;
    } else {
      assert (p + q)[0] == p[0] && (p + q)[1..] == p[1..] + q;
      if p[0] in Children(t) {
        GetAppend(Children(t)[p[0]], p[1..], q);
      }
    }
  }

  lemma {:induction false} GetNormal(t: Node, p: Path)
    requires Normal(t) && Get(t, p).Some?
    ensures Normal(Get(t, p).value)
    decreases p
  {
    if p != [] { GetNormal(Children(t)[p[0]], p[1..]); }
  }

  /** Nothing lies below a leaf. */
  lemma LeafStops(t: Node, p: Path, q: Path)
    requires Look(t, p).Some?
    ensures ProperPrefix(p, q) ==> Get(t, q).None?
  {
    if ProperPrefix(p, q) {
      GetAppend(t, p, q[|p|..]);
      assert p + q[|p|..] == q;
    }
  }

  /** The leaves of a tree are prefix-free. */
  lemma AbsPrefixFree(t: Node)
    ensures PrefixFree(Abs(t))
  {
    AbsLook(t);
    forall p, q | p in Abs(t) && q in Abs(t) ensures !ProperPrefix(p, q) {
      LeafStops(t, p, q);
    }
  }

  ghost predicate IsBranchAt(t: Node, p: Path) {
    Get(t, p).Some? && Get(t, p).value.Branch?
  }

  lemma BelowIsBranch(t: Node, p: Path, q: Path)
    requires Get(t, q).Some? && ProperPrefix(p, q)
    ensures IsBranchAt(t, p)
  {
    GetAppend(t, p, q[|p|..]);
    assert p + q[|p|..] == q;
  }

  /** In normal form, a path is a branch exactly when some leaf lies strictly below it. */
  lemma BranchMeansBelow(t: Node, p: Path)
    requires NormalRoot(t)
    ensures IsBranchAt(t, p) <==> exists q :: q in Abs(t) && ProperPrefix(p, q)
  {
    AbsLook(t);
    if IsBranchAt(t, p) {
      GetNormal(t, p);
      var r := SomeLeaf(Get(t, p).value);
      GetAppend(t, p, r);
      assert (p + r)[..|p|] == p;
      assert p + r in Abs(t) && ProperPrefix(p, p + r);
    }
    if q :| q in Abs(t) && ProperPrefix(p, q) {
      BelowIsBranch(t, p, q);
    }
  }

  // ---------------------------------------------------------------- Add against the map

  /** A proper prefix of `p` is a leaf. */
  ghost predicate LeafAbove(t: Node, p: Path) {
    exists q :: q in Abs(t) && ProperPrefix(q, p)
  }

  ghost predicate LeafBelow(t: Node, p: Path) {
    exists q :: q in Abs(t) && ProperPrefix(p, q)
  }

  lemma LeafAboveStep(t: Node, p: Path)
    requires p != []
    ensures LeafAbove(t, p)
       <==> t.Leaf? || (p[0] in Children(t) && LeafAbove(Children(t)[p[0]], p[1..]))
  {
    AbsLook(t);
    if LeafAbove(t, p) {
      var q :| q in Abs(t) && ProperPrefix(q, p);
      if q == [] {
        assert t.Leaf?;
      } else {
        LookStep(t, q);
        AbsLook(Children(t)[q[0]]);
        assert q[1..] in Abs(Children(t)[q[0]]) && ProperPrefix(q[1..], p[1..]);
      }
    }
    if t.Leaf? {
      assert [] in Abs(t) && ProperPrefix([], p);
    }
    if p[0] in Children(t) && LeafAbove(Children(t)[p[0]], p[1..]) {
      var c := Children(t)[p[0]];
      AbsLook(c);
      var q :| q in Abs(c) && ProperPrefix(q, p[1..]);
      var q' := [p[0]] + q;
      assert q'[1..] == q;
      LookStep(t, q');
      assert q' in Abs(t) && ProperPrefix(q', p);
    }
  }

  /** The new branch holds exactly one leaf. */
  lemma {:induction false} NewBranchLook(path: Path, v: Value, elem: string, q: Path)
    ensures Look(NewBranch(path, v, elem), q)
         == if q == NewLeafAt(path, v, elem) then Some(v) else None
    ensures Normal(NewBranch(path, v, elem))
    decreases path
  {
    var t := NewBranch(path, v, elem);
    if path == [] {
      if IsContainer(v) {
        assert elem in t.m;
        if q != [] { LookStep(t, q); if q[1..] != [] { LookStep(Leaf(v), q[1..]); } }
      } else if q != [] {
        LookStep(t, q);
      }
    } else {
      assert path[0] in t.m;
      NewBranchLook(path[1..], v, "", if q == [] then [] else q[1..]);
      if q != [] {
        LookStep(t, q);
        assert NewLeafAt(path, v, elem) == [path[0]] + NewLeafAt(path[1..], v, "");
        assert q == [q[0]] + q[1..];
      }
    }
  }

  /** Where newBranch puts its leaf: at `path`, or one level below it for a container. */
  function NewLeafAt(path: Path, v: Value, elem: string): Path {
    if !IsContainer(v) then path else path + [if path == [] then elem else ""]
  }

  /** Adding along a branch that newBranch has just made changes nothing. */
  lemma {:induction false} AddToNewBranch(path: Path, v: Value, elem: string)
    ensures Add(NewBranch(path, v, elem), path, v) == Added(NewBranch(path, v, elem), true)
    decreases path
  {
    if path != [] {
      AddToNewBranch(path[1..], v, "");
      var t := NewBranch(path, v, elem);
      assert Children(t)[path[0] := t.m[path[0]]] == t.m;
    }
  }

  /** A plain value: the call fails exactly when a leaf lies above the path or the path is a
      branch, and then changes nothing; otherwise it sets one path of the map. */
  lemma {:induction false} AddPlainLook(t: Node, p: Path, v: Value, q: Path)
    requires !IsContainer(v)
    ensures Add(t, p, v).ok <==> !LeafAbove(t, p) && !IsBranchAt(t, p)
    ensures !Add(t, p, v).ok ==> Add(t, p, v).tree == t
    ensures Add(t, p, v).ok ==> Look(Add(t, p, v).tree, q) == if q == p then Some(v) else Look(t, q)
    decreases p
  {
    var a := Add(t, p, v);
    if p == [] {
      if LeafAbove(t, p) { assert false; }
      if q != [] && a.ok { LookStep(a.tree, q); LookStep(t, q); }
    } else {
      LeafAboveStep(t, p);
      if !t.Leaf? {
        var c := NextNode(t, p, v);
        var q' := if q == [] then [] else q[1..];
        if p[0] in Children(t) {
          AddPlainLook(c, p[1..], v, q');
          if !a.ok { assert Children(t)[p[0] := c] == Children(t); }
        } else {
          AddToNewBranch(p[1..], v, p[0]);
          NewBranchLook(p[1..], v, p[0], q');
        }
        if q != [] {
          LookStep(t, q);
          LookStep(a.tree, q);
          assert q == [q[0]] + q[1..] && p == [p[0]] + p[1..];
        }
      }
    }
  }

  lemma {:induction false} AddNormal(t: Node, p: Path, v: Value)
    requires NormalRoot(t)
    ensures NormalRoot(Add(t, p, v).tree)
    ensures Normal(t) ==> Normal(Add(t, p, v).tree)
    decreases p
  {
    if p != [] && !t.Leaf? {
      if p[0] in Children(t) {
        AddNormal(Children(t)[p[0]], p[1..], v);
      } else {
        NewBranchLook(p[1..], v, p[0], []);
        AddNormal(NewBranch(p[1..], v, p[0]), p[1..], v);
      }
    }
  }

  /** `Add` of a plain value refines the flat map. */
  lemma AddPlainRefinesMap(t: Node, p: Path, v: Value)
    requires NormalRoot(t) && !IsContainer(v)
    ensures Add(t, p, v).ok <==> !LeafAbove(t, p) && !LeafBelow(t, p)
    ensures Add(t, p, v).ok ==> Abs(Add(t, p, v).tree) == Abs(t)[p := v]
    ensures !Add(t, p, v).ok ==> Add(t, p, v).tree == t
    ensures NormalRoot(Add(t, p, v).tree)
  {
    AddNormal(t, p, v);
    BranchMeansBelow(t, p);
    AddPlainLook(t, p, v, p);
    if Add(t, p, v).ok {
      AbsLook(t);
      forall q ensures Look(Add(t, p, v).tree, q)
                    == if q in Abs(t)[p := v] then Some(Abs(t)[p := v][q]) else None {
        AddPlainLook(t, p, v, q);
      }
      AbsEqual(Add(t, p, v).tree, Abs(t)[p := v]);
    }
  }

  /** The last name of the placeholder leaf of a container: the container's own name when
      its parent node exists, and the empty name when parents were created as well. */
  function PlaceholderAt(t: Node, p: Path): Path
    requires p != []
  {
    p + [if Get(t, p[..|p|-1]).Some? then p[|p|-1] else ""]
  }

  lemma {:induction false} AddContainerLook(t: Node, p: Path, v: Value, q: Path)
    requires IsContainer(v)
    ensures Add(t, p, v).ok <==> !LeafAbove(t, p)
    ensures LeafAbove(t, p) || Get(t, p).Some? ==> Add(t, p, v).tree == t
    ensures !LeafAbove(t, p) && Get(t, p).None? ==>
              Look(Add(t, p, v).tree, q) == if q == PlaceholderAt(t, p) then Some(v) else Look(t, q)
    decreases p
  {
    var a := Add(t, p, v);
    if p == [] {
      if LeafAbove(t, p) { assert false; }
    } else {
      LeafAboveStep(t, p);
      if !t.Leaf? {
        var c := NextNode(t, p, v);
        var q' := if q == [] then [] else q[1..];
        if p[0] in Children(t) {
          AddContainerLook(c, p[1..], v, q');
          if LeafAbove(c, p[1..]) || Get(c, p[1..]).Some? {
            assert Children(t)[p[0] := c] == Children(t);
          } else {
            assert p[1..] != [];
            assert p[..|p|-1][1..] == p[1..][..|p|-2];
            assert PlaceholderAt(t, p) == [p[0]] + PlaceholderAt(c, p[1..]);
          }
        } else {
          AddToNewBranch(p[1..], v, p[0]);
          NewBranchLook(p[1..], v, p[0], q');
          if |p| > 1 { assert p[..|p|-1][0] == p[0]; }
          assert PlaceholderAt(t, p) == [p[0]] + NewLeafAt(p[1..], v, p[0]);
        }
        if q != [] {
          LookStep(t, q);
          LookStep(a.tree, q);
          assert q == [q[0]] + q[1..] && p == [p[0]] + p[1..];
        }
      }
    }
  }

  /** `Add` of a container: an error exactly below a leaf; no change where a node exists;
      otherwise one placeholder leaf, one level below the path, so that children can still
      be added to the container. */
  lemma AddContainerRefinesMap(t: Node, p: Path, v: Value, child: string, w: Value)
    requires NormalRoot(t) && IsContainer(v)
    ensures Add(t, p, v).ok <==> !LeafAbove(t, p)
    ensures LeafAbove(t, p) || Get(t, p).Some? ==> Add(t, p, v).tree == t
    ensures !LeafAbove(t, p) && Get(t, p).None? ==>
              && p != []
              && PlaceholderAt(t, p) !in Abs(t)
              && Abs(Add(t, p, v).tree) == Abs(t)[PlaceholderAt(t, p) := v]
              && Add(Add(t, p, v).tree, p + [child], w).ok
    ensures NormalRoot(Add(t, p, v).tree)
  {
    AddNormal(t, p, v);
    AddContainerLook(t, p, v, p);
    if !LeafAbove(t, p) && Get(t, p).None? {
      var t' := Add(t, p, v).tree;
      var at := PlaceholderAt(t, p);
      AbsLook(t);
      forall q ensures Look(t', q) == if q in Abs(t)[at := v] then Some(Abs(t)[at := v][q]) else None {
        AddContainerLook(t, p, v, q);
      }
      AbsEqual(t', Abs(t)[at := v]);
      assert at !in Abs(t) by {
        if at in Abs(t) { BelowIsBranch(t, p, at); }
      }
      var cp := p + [child];
      NothingBelow(t, p, at, v, cp);
      if IsContainer(w) { AddContainerLook(t', cp, w, cp); } else {
        AddPlainLook(t', cp, w, cp);
        BranchMeansBelow(t', cp);
      }
    }
  }

  /** After the placeholder was added, no leaf stands above or below a child of the container. */
  lemma NothingBelow(t: Node, p: Path, at: Path, v: Value, cp: Path)
    requires NormalRoot(t) && !LeafAbove(t, p) && Get(t, p).None? && p != []
    requires |at| == |p| + 1 && |cp| == |p| + 1 && at[..|p|] == p && cp[..|p|] == p
    requires NormalRoot(Add(t, p, v).tree) && Abs(Add(t, p, v).tree) == Abs(t)[at := v]
    ensures !LeafAbove(Add(t, p, v).tree, cp) && !LeafBelow(Add(t, p, v).tree, cp)
  {
    var t' := Add(t, p, v).tree;
    AbsLook(t);
    forall q | q in Abs(t')
      ensures !ProperPrefix(q, cp) && !ProperPrefix(cp, q)
    {
      if q != at {
        NotPrefixOfChild(q, p, cp);
        if ProperPrefix(cp, q) { assert q[..|p|] == q[..|cp|][..|p|] == p; }
        if ProperPrefix(p, q) { BelowIsBranch(t, p, q); }
      }
    }
  }

  lemma NotPrefixOfChild(q: Path, p: Path, cp: Path)
    requires |cp| == |p| + 1 && cp[..|p|] == p
    ensures ProperPrefix(q, cp) ==> q == p || ProperPrefix(q, p)
  {
    if ProperPrefix(q, cp) { assert q == cp[..|p|][..|q|]; }
  }

  /** terminalAdd's local write is the whole Add. */
  lemma {:induction false} WriteIsAdd(t: Node, p: Path, v: Value)
    requires Get(t, p).Some?
    ensures var a := TerminalAdd(Get(t, p).value, v);
            Add(t, p, v) == Added(SetAt(t, p, a.tree), a.ok)
    decreases p
  {
    if p != [] { WriteIsAdd(Children(t)[p[0]], p[1..], v); }
  }

  /** Overwriting a leaf sets one path of the map. */
  lemma {:induction false} SetLeafLook(t: Node, p: Path, v: Value, q: Path)
    requires Look(t, p).Some?
    ensures Look(SetAt(t, p, Leaf(v)), q) == if q == p then Some(v) else Look(t, q)
    ensures Normal(t) ==> Normal(SetAt(t, p, Leaf(v)))
    decreases p
  {
    var t' := SetAt(t, p, Leaf(v));
    if p == [] {
      if q != [] { LookStep(t', q); LookStep(t, q); }
    } else {
      SetLeafLook(Children(t)[p[0]], p[1..], v, if q == [] then [] else q[1..]);
      if q != [] {
        LookStep(t', q);
        LookStep(t, q);
        assert q == [q[0]] + q[1..] && p == [p[0]] + p[1..];
      }
    }
  }

  lemma {:induction false} SetLeafRefinesMap(t: Node, p: Path, v: Value)
    requires NormalRoot(t) && p in Abs(t)
    ensures Abs(SetAt(t, p, Leaf(v))) == Abs(t)[p := v]
    ensures NormalRoot(SetAt(t, p, Leaf(v)))
  {
    AbsLook(t);
    SetLeafLook(t, p, v, p);
    if t.Nil? && p != [] { LookStep(t, p); }
    forall q ensures Look(SetAt(t, p, Leaf(v)), q)
                  == if q in Abs(t)[p := v] then Some(Abs(t)[p := v][q]) else None {
      SetLeafLook(t, p, v, q);
    }
    AbsEqual(SetAt(t, p, Leaf(v)), Abs(t)[p := v]);
  }

  /** A failing call leaves the tree as it is, whatever the value. */
  lemma FailedAdd(t: Node, p: Path, v: Value)
    ensures !Add(t, p, v).ok ==> Add(t, p, v).tree == t
  {
    if IsContainer(v) { AddContainerLook(t, p, v, p); } else { AddPlainLook(t, p, v, p); }
  }

  /** After a successful call there is a node at the path. */
  lemma AddedNodeExists(t: Node, p: Path, v: Value)
    requires Add(t, p, v).ok
    ensures Get(Add(t, p, v).tree, p).Some?
  {
    if !IsContainer(v) {
      AddPlainLook(t, p, v, p);
    } else {
      AddContainerLook(t, p, v, p);
      if Get(t, p).None? {
        AddContainerLook(t, p, v, PlaceholderAt(t, p));
        assert PlaceholderAt(t, p)[..|p|] == p;
        BelowIsBranch(Add(t, p, v).tree, p, PlaceholderAt(t, p));
      }
    }
  }
}
