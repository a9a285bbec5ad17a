/** The octree itself: nodes on the heap whose children maps are changed in place.  Every
    method is proved against the value-level operation of PathTree on the node's `Model`. */
module OcTree {
  import opened Gnmi
  import PT = PathTree
  import Globs
  import Lex
  import opened Visits

  type Value = PT.Value

  /** Each node is empty, a leaf, or a branch. */
  datatype LeafBranch = Empty | Val(v: Value) | Kids(m: map<string, Tree>)

  class Tree {
    var leafBranch: LeafBranch
    ghost var Repr: set<object>
    ghost var Model: PT.Node

    ghost predicate Valid()
      reads this, Repr
      ensures Valid() ==> this in Repr
      decreases Repr, 1
    {
      this in Repr && Linked()
    }

    /** The node agrees with its model, and the parts below its children are valid and disjoint. */
    ghost predicate Linked()
      requires this in Repr
      reads this, Repr
      decreases Repr, 0
    {
      match leafBranch
      case Empty => Model == PT.Nil
      case Val(v) => Model == PT.Leaf(v)
      case Kids(m) =>
        && (forall k | k in m :: m[k] in Repr && m[k].Repr <= Repr && this !in m[k].Repr && m[k].Valid())
        && (forall k, l | k in m && l in m && k != l :: m[k].Repr !! m[l].Repr)
        && Model == PT.Branch(map k | k in m :: m[k].Model)
    }

    lemma Open()
      requires Valid()
      ensures this in Repr && Linked()
    {
    }

    lemma Close()
      requires this in Repr && Linked()
      ensures Valid()
    {
    }

    constructor ()
      ensures Valid() && fresh(Repr) && Model == PT.Nil
    {
      leafBranch := Empty;
      Repr := {this};
      Model := PT.Nil;
    }

    constructor OfLeaf(v: Value)
      ensures Valid() && fresh(Repr) && Model == PT.Leaf(v)
    {
      leafBranch := Val(v);
      Repr := {this};
      Model := PT.Leaf(v);
    }

    constructor OfChild(k: string, c: Tree)
      requires c.Valid()
      ensures Valid() && fresh(Repr - c.Repr) && Model == PT.Branch(map[k := c.Model])
    {
      leafBranch := Kids(map[k := c]);
      Repr := {this} + c.Repr;
      Model := PT.Branch(map[k := c.Model]);
    }

    static method NewBranch(path: Path, v: Value, elem: string) returns (t: Tree)
      ensures t.Valid() && fresh(t.Repr)
      ensures t.Model == PT.NewBranch(path, v, elem)
      decreases path
    {
      if path == [] {
        t := new Tree.OfLeaf(v);
        if IsContainer(v) {
          t := new Tree.OfChild(elem, t);
        }
      } else {
        var c := NewBranch(path[1..], v, "");
        t := new Tree.OfChild(path[0], c);
      }
    }

    method TerminalAdd(v: Value) returns (ok: bool)
      requires Valid()
      modifies this
      ensures Valid() && Repr == old(Repr)
      ensures PT.Added(Model, ok) == PT.TerminalAdd(old(Model), v)
    {
      if IsContainer(v) { return true; }
      if leafBranch.Kids? { return false; }
      leafBranch := Val(v);
      Model := PT.Leaf(v);
      ok := true;
    }

    /** Brings the ghost state up to date after the child `c` under `k` was changed or added. */
    ghost method Relink(k: string, c: Tree, models: map<string, PT.Node>)
      requires this in Repr && leafBranch.Kids? && k in leafBranch.m && leafBranch.m[k] == c
      requires c.Valid() && this !in c.Repr
      requires forall l | l in leafBranch.m && l != k ::
                 && leafBranch.m[l] in Repr && leafBranch.m[l].Repr <= Repr && this !in leafBranch.m[l].Repr
                 && leafBranch.m[l].Valid() && leafBranch.m[l].Repr !! c.Repr
      requires forall l, l' | l in leafBranch.m && l' in leafBranch.m && l != k && l' != k && l != l' ::
                 leafBranch.m[l].Repr !! leafBranch.m[l'].Repr
      requires models.Keys == leafBranch.m.Keys
      requires forall l | l in leafBranch.m :: models[l] == leafBranch.m[l].Model
      modifies this`Repr, this`Model
      ensures Valid() && Repr == old(Repr) + c.Repr && Model == PT.Branch(models)
    {
      hide Valid;
      Repr := Repr + c.Repr;
      Model := PT.Branch(models);
      assert models == map l | l in leafBranch.m :: leafBranch.m[l].Model;
      Close();
    }

    /** Runs when no child was found under the reader lock, and looks again. */
    method SlowAdd(path: Path, v: Value) returns (ok: bool)
      requires Valid() && path != []
      modifies Repr
      ensures Valid() && fresh(Repr - old(Repr))
      ensures PT.Added(Model, ok) == PT.Add(old(Model), path, v)
      decreases |path|, 0
    {
      if leafBranch.Empty? {
        leafBranch := Kids(map[]);
        Model := PT.Branch(map[]);
      }
      match leafBranch {
        case Kids(m) =>
          if path[0] !in m {
            AttachNew(path, v);
          }
          ok := AddToChild(path, v);
        case _ =>
          ok := false;
      }
    }

    /** Puts a new branch for the rest of the path below this node. */
    method AttachNew(path: Path, v: Value)
      requires Valid() && leafBranch.Kids? && path != [] && path[0] !in leafBranch.m
      modifies Repr
      ensures Valid() && fresh(Repr - old(Repr)) && leafBranch.Kids? && path[0] in leafBranch.m
      ensures Model == PT.Branch(PT.Children(old(Model))[path[0] := PT.NewBranch(path[1..], v, path[0])])
    {
      hide PT.NewBranch;
      ghost var m0 := PT.Children(Model);
      var br := NewBranch(path[1..], v, path[0]);
      leafBranch := Kids(leafBranch.m[path[0] := br]);
      Relink(path[0], br, m0[path[0] := br.Model]);
    }

    /** Goes on with the child that the path enters. */
    method AddToChild(path: Path, v: Value) returns (ok: bool)
      requires Valid() && leafBranch.Kids? && path != [] && path[0] in leafBranch.m
      modifies Repr
      ensures Valid() && fresh(Repr - old(Repr))
      ensures PT.Added(Model, ok) == PT.Add(old(Model), path, v)
      decreases |path| - 1, 3
    {
      hide PT.NewBranch;
      ghost var m0 := PT.Children(Model);
      var br := leafBranch.m[path[0]];
      assert m0[path[0]] == br.Model;
      ok := br.Add(path[1..], v);
      Relink(path[0], br, m0[path[0] := br.Model]);
    }

    method IntermediateAdd(path: Path, v: Value) returns (ok: bool)
      requires Valid() && path != []
      modifies Repr
      ensures Valid() && fresh(Repr - old(Repr))
      ensures PT.Added(Model, ok) == PT.Add(old(Model), path, v)
      decreases |path|, 1
    {
      match leafBranch {
        case Val(_) => ok := false;
        case Empty => ok := SlowAdd(path, v);
        case Kids(m) =>
          if path[0] in m {
            ok := AddToChild(path, v);
          } else {
            ok := SlowAdd(path, v);
          }
      }
    }

    method Add(path: Path, v: Value) returns (ok: bool)
      requires Valid()
      modifies Repr
      ensures Valid() && fresh(Repr - old(Repr))
      ensures PT.Added(Model, ok) == PT.Add(old(Model), path, v)
      decreases |path|, 2
    {
      if path == [] {
        ok := TerminalAdd(v);
      } else {
        ok := IntermediateAdd(path, v);
      }
    }

    /** `node` is the object that stands at `path`. */
    ghost predicate At(path: Path, node: Tree)
      requires Valid()
      reads this, Repr
      decreases |path|
    {
      if path == [] then this == node
      else
        Open();
        leafBranch.Kids? && path[0] in leafBranch.m && leafBranch.m[path[0]].At(path[1..], node)
    }

    method Get(path: Path) returns (t: Tree?)
      requires Valid()
      ensures t != null ==> At(path, t)
      ensures (t == null) == PT.Get(Model, path).None?
      ensures t != null ==>
                t in Repr && t.Repr <= Repr && t.Valid() && PT.Get(Model, path) == Some(t.Model)
      decreases |path|
    {
      if path == [] { return this; }
      if leafBranch.Kids? && path[0] in leafBranch.m {
        t := leafBranch.m[path[0]].Get(path[1..]);
      } else {
        t := null;
      }
    }

    static function Prepend(k: string, paths: seq<Path>): seq<Path> {
      seq(|paths|, i requires 0 <= i < |paths| => [k] + paths[i])
    }

    /** Deletes below the child `k`, drops the child if it asks for it, and extends the list of
        removed leaves with those the child reports. */
    method DeleteChild(k: string, rest: Path, cond: Value -> bool, sofar: seq<Path>)
      returns (leaves: seq<Path>)
      requires Valid() && leafBranch.Kids? && k in leafBranch.m
      modifies Repr
      ensures Valid() && Repr == old(Repr) && leafBranch.Kids?
      ensures Model.Branch? && old(Model).Branch? && k in old(Model).m
      ensures Model.m == var d := PT.InternalDelete(old(Model).m[k], rest, cond);
                         if d.remove then old(Model).m - {k} else old(Model).m[k := d.tree]
      ensures leaves == sofar
      decreases leafBranch.m[k].Model, 2
    {
      hide PT.InternalDelete;
      ghost var m0 := Model.m;
      var m := leafBranch.m;
      var br := m[k];
      var del, below := br.InternalDelete(rest, cond);
      leaves := sofar + Prepend(k, below);
      if del {
        leafBranch := Kids(m - {k});
        Model := PT.Branch(m0 - {k});
        assert Model.m == map l | l in leafBranch.m :: leafBranch.m[l].Model;
      } else {
        Relink(k, br, m0[k := br.Model]);
      }
    }

    /** What the loop over the children leaves of `m`. */
    static ghost function Survivors(m: map<string, PT.Node>, rest: Path, cond: Value -> bool)
      : map<string, PT.Node>
    {
      map k | k in m && !PT.InternalDelete(m[k], rest, cond).remove
           :: PT.InternalDelete(m[k], rest, cond).tree
    }

    /** The loop of internalDelete over the children of a branch, in any order. */
    method DeleteFromAll(rest: Path, cond: Value -> bool) returns (leaves: seq<Path>)
      requires Valid() && leafBranch.Kids?
      modifies Repr
      ensures Valid() && Repr == old(Repr) && leafBranch.Kids?
      ensures old(Model).Branch? && Model == PT.Branch(Survivors(old(Model).m, rest, cond))
      ensures leaves == []
      decreases Model, 0
    {
      hide PT.InternalDelete;
      leaves := [];
      var todo := leafBranch.m.Keys;
      ghost var m0 := Model.m;
      while todo != {}
        invariant Valid() && Repr == old(Repr) && leafBranch.Kids? && Model.Branch?
        invariant todo <= Model.m.Keys <= m0.Keys
        invariant forall k | k in todo :: Model.m[k] == m0[k]
        invariant forall k | k in m0 && k !in todo ::
          var d := PT.InternalDelete(m0[k], rest, cond);
          if d.remove then k !in Model.m else k in Model.m && Model.m[k] == d.tree
        invariant leaves == []
        decreases todo
      {
        var k :| k in todo;
        todo := todo - {k};
        assert Model.m[k] == leafBranch.m[k].Model;
        leaves := DeleteChild(k, rest, cond, leaves);
      }
      assert Model.m == Survivors(m0, rest, cond);
    }

    /** One call of internalDelete.  The list of removed leaves is built exactly as the
        source builds it; its base case contributes nothing, so it is always empty. */
    method InternalDelete(glob: Path, cond: Value -> bool)
      returns (remove: bool, leaves: seq<Path>)
      requires Valid()
      modifies Repr
      ensures Valid() && Repr == old(Repr)
      ensures PT.Deleted(Model, remove) == PT.InternalDelete(old(Model), glob, cond)
      ensures leaves == []
      decreases Model, 1
    {
      remove, leaves := false, [];
      if glob == [] || glob[0] == "*" {
        match leafBranch {
          case Empty =>
          case Val(v) =>
            remove := cond(v);
          case Kids(_) =>
            leaves := DeleteFromAll(if glob == [] then glob else glob[1..], cond);
            remove := leafBranch.m == map[];
            assert remove <==> Model.m == map[];
        }
      } else if leafBranch.Kids? && glob[0] in leafBranch.m {
        assert Model.m[glob[0]] == leafBranch.m[glob[0]].Model;
        leaves := DeleteChild(glob[0], glob[1..], cond, []);
        remove := leafBranch.m == map[];
        assert remove <==> Model.m == map[];
      }
    }

    method DeleteConditional(glob: Path, cond: Value -> bool) returns (leaves: seq<Path>)
      requires Valid()
      modifies Repr
      ensures Valid() && Repr == old(Repr)
      ensures Model == PT.DeleteConditional(old(Model), glob, cond)
      ensures leaves == []
    {
      var remove;
      remove, leaves := InternalDelete(glob, cond);
      if remove {
        leafBranch := Empty;
        Model := PT.Nil;
      }
    }

    /** Leaf.Update on the leaf that GetLeaf has found at `path`; the ghost state of the nodes
        above it follows. */
    method UpdateLeaf(path: Path, leaf: Tree, v: Value)
      requires Valid() && PT.Look(Model, path).Some? && At(path, leaf)
      modifies Repr
      ensures Valid() && Repr == old(Repr)
      ensures Model == PT.SetAt(old(Model), path, PT.Leaf(v))
      ensures leaf in Repr && leaf.Valid() && leaf.leafBranch == Val(v)
      decreases |path|
    {
      if path == [] {
        leafBranch := Val(v);
        Model := PT.Leaf(v);
      } else {
        ghost var m0 := Model.m;
        var c := leafBranch.m[path[0]];
        assert m0[path[0]] == c.Model;
        PT.LookStep(Model, path);
        c.UpdateLeaf(path[1..], leaf, v);
        Relink(path[0], c, m0[path[0] := c.Model]);
      }
    }

    // -------------------------------------------------------------- traversals

    /** The loop of a query over the children of a branch, in any order. */
    method QueryAll(prefix: Path, glob: Path, f: Visit -> bool) returns (out: seq<Visit>, err: bool)
      requires Valid() && leafBranch.Kids? && (glob == [] || glob[0] == "*")
      ensures Traversal(Model, glob, prefix, f, out, err)
      decreases Repr, 0
    {
      hide Partial, Traversal;
      out, err := [], false;
      EmptyTraversal(Model, glob, prefix, f);
      var todo := leafBranch.m.Keys;
      ghost var done: set<string> := {};
      while todo != {} && !err
        invariant todo <= leafBranch.m.Keys && done == leafBranch.m.Keys - todo
        invariant Partial(Model, glob, prefix, f, done, out, err)
        decreases todo
      {
        var k :| k in todo;
        todo := todo - {k};
        var sub;
        assert Model.m[k] == leafBranch.m[k].Model; assert leafBranch.m[k].Repr < Repr;
        sub, err := leafBranch.m[k].QueryInternal(prefix + [k], Rest(glob), f);
        ExtendTraversal(Model, glob, prefix, f, done, out, k, sub, err);
        out := out + sub;
        done := done + {k};
      }
      FinishTraversal(Model, glob, prefix, f, done, out, err);
    }

    method EnumerateChildren(prefix: Path, glob: Path, f: Visit -> bool) returns (out: seq<Visit>, err: bool)
      requires Valid() && (glob == [] || glob[0] == "*")
      ensures Traversal(Model, glob, prefix, f, out, err)
      decreases Repr, 1
    {
      if glob == [] || glob == ["*"] {
        match leafBranch {
          case Kids(_) =>
            out, err := QueryAll(prefix, glob, f);
          case Empty =>
            out, err := [], false;
            NilTraversal(Model, glob, prefix, f);
          case Val(v) =>
            out, err := [(prefix, v)], f((prefix, v));
            LeafTraversal(Model, glob, prefix, f);
        }
      } else if leafBranch.Kids? {
        out, err := QueryAll(prefix, glob, f);
      } else {
        out, err := [], false;
        if Model.Leaf? { LeafTraversal(Model, glob, prefix, f); } else { NilTraversal(Model, glob, prefix, f); }
      }
    }

    method QueryInternal(prefix: Path, glob: Path, f: Visit -> bool) returns (out: seq<Visit>, err: bool)
      requires Valid()
      ensures Traversal(Model, glob, prefix, f, out, err)
      decreases Repr, 2
    {
      if glob == [] || glob[0] == "*" {
        out, err := EnumerateChildren(prefix, glob, f);
      } else {
        out, err := [], false;
        if leafBranch.Kids? {
          if glob[0] in leafBranch.m {
            assert Model.m[glob[0]] == leafBranch.m[glob[0]].Model; assert leafBranch.m[glob[0]].Repr < Repr;
            out, err := leafBranch.m[glob[0]].QueryInternal(prefix + [glob[0]], glob[1..], f);
            ExtendTraversal(Model, glob, prefix, f, {}, [], glob[0], out, err);
            assert [] + out == out;
          }
          FinishTraversal(Model, glob, prefix, f, if glob[0] in Model.m then {glob[0]} else {}, out, err);
        } else if Model.Leaf? {
          LeafTraversal(Model, glob, prefix, f);
        } else {
          NilTraversal(Model, glob, prefix, f);
        }
      }
    }

    /** Calls `f` once for every leaf whose path matches `glob`, until `f` returns an error. */
    method Query(glob: Path, f: Visit -> bool) returns (out: seq<Visit>, err: bool)
      requires Valid()
      ensures Traversal(Model, glob, [], f, out, err)
      ensures !err ==> forall p :: Reports(out, p) <==> p in PT.Abs(Model) && Globs.QueryMatch(glob, p)
      ensures Distinct(out)
    {
      out, err := QueryInternal([], glob, f);
      if !err { TraversalReadsMap(Model, glob, f, out); }
    }

    method WalkInternal(path: Path, f: Visit -> bool) returns (out: seq<Visit>, err: bool)
      requires Valid() && PT.NormalRoot(Model) && (path == [] || !Model.Nil?)
      ensures Traversal(Model, [], path, f, out, err)
      decreases Repr
    {
      match leafBranch {
        case Kids(m) =>
          out, err := [], false;
          var todo := m.Keys;
          ghost var done: set<string> := {};
          while todo != {} && !err
            invariant todo <= m.Keys && done == m.Keys - todo
            invariant Partial(Model, [], path, f, done, out, err)
            decreases todo
          {
            var k :| k in todo;
            todo := todo - {k};
            var sub;
            assert PT.Normal(Model.m[k]) && Model.m[k] == m[k].Model; assert m[k].Repr < Repr;
            sub, err := m[k].WalkInternal(path + [k], f);
            ExtendTraversal(Model, [], path, f, done, out, k, sub, err);
            out := out + sub;
            done := done + {k};
          }
          FinishTraversal(Model, [], path, f, done, out, err);
        case Empty =>
          out, err := [], false;
          NilTraversal(Model, [], path, f);
        case Val(v) =>
          out, err := [(path, v)], f((path, v));
          LeafTraversal(Model, [], path, f);
      }
    }

    method Walk(f: Visit -> bool) returns (out: seq<Visit>, err: bool)
      requires Valid() && PT.NormalRoot(Model)
      ensures Traversal(Model, [], [], f, out, err)
      ensures !err ==> forall p :: Reports(out, p) <==> p in PT.Abs(Model)
      ensures Distinct(out)
    {
      out, err := WalkInternal([], f);
      if !err { TraversalReadsMap(Model, [], f, out); }
    }

    /** The loop over the sorted names of the children. */
    method WalkNames(path: Path, f: Visit -> bool) returns (out: seq<Visit>, err: bool)
      requires Valid() && leafBranch.Kids? && PT.Normal(Model)
      ensures Traversal(Model, [], path, f, out, err)
      ensures Sorted(out)
      decreases Repr, 0
    {
      hide Traversal, Partial, Sorted, Lex.StrLess;
      out, err := [], false;
      EmptyTraversal(Model, [], path, f);
      assert Sorted(out) by { NothingSorted(); }
      var m := leafBranch.m;
      var names := Lex.SortStrings(m.Keys);
      ghost var done: set<string> := {};
      var i := 0;
      while i < |names| && !err
        invariant 0 <= i <= |names|
        invariant forall x :: x in done <==> x in names[..i]
        invariant Partial(Model, [], path, f, done, out, err)
        invariant Sorted(out)
        decreases |names| - i
      {
        var k := names[i];
        Lex.StrTotal(k, k);
        assert k in names && k !in done;
        var sub;
        assert PT.Normal(Model.m[k]) && Model.m[k] == m[k].Model; assert m[k].Repr < Repr;
        sub, err := m[k].WalkInternalSorted(path + [k], f);
        ExtendTraversal(Model, [], path, f, done, out, k, sub, err);
        ExtendSorted(Model, path, f, done, out, k, sub, err);
        assert names[..i + 1] == names[..i] + [k];
        out := out + sub;
        done := done + {k};
        i := i + 1;
      }
      if !err { assert names[..i] == names; }
      FinishTraversal(Model, [], path, f, done, out, err);
    }

    method WalkInternalSorted(path: Path, f: Visit -> bool) returns (out: seq<Visit>, err: bool)
      requires Valid() && PT.NormalRoot(Model) && (path == [] || !Model.Nil?)
      ensures Traversal(Model, [], path, f, out, err)
      ensures Sorted(out)
      decreases Repr, 1
    {
      match leafBranch {
        case Kids(m) =>
          out, err := WalkNames(path, f);
        case Empty =>
          out, err := [], false;
          NilTraversal(Model, [], path, f);
        case Val(v) =>
          out, err := [(path, v)], f((path, v));
          LeafTraversal(Model, [], path, f);
      }
    }

    /** Visits the flat map's domain, each path once, in strictly increasing order. */
    method WalkSorted(f: Visit -> bool) returns (out: seq<Visit>, err: bool)
      requires Valid() && PT.NormalRoot(Model)
      ensures Traversal(Model, [], [], f, out, err)
      ensures !err ==> forall p :: Reports(out, p) <==> p in PT.Abs(Model)
      ensures Sorted(out)
    {
      out, err := WalkInternalSorted([], f);
      if !err { TraversalReadsMap(Model, [], f, out); }
    }
  }
}
