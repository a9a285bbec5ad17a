/** The target cache: an object whose methods update the octree, the latest timestamp, the sync
    flag and the metadata in place and call the client back.  Each method is proved against the
    function of TargetSpec on the whole state. */
module Target {
  import opened Gnmi
  import PT = PathTree
  import OcTree
  import TS = TargetSpec

  class Target {
    const lib: TS.Lib
    var t: OcTree.Tree
    var sync: bool
    var meta: TS.Meta
    var ts: Option<int>
    /** The client callbacks made so far: the content of the leaf at the time of each call. */
    ghost var feed: seq<TS.Call>

    ghost predicate Valid()
      reads this, t, t.Repr
    {
      t.Valid() && this !in t.Repr
    }

    ghost function State(): TS.State
      reads this, t
    {
      TS.State(t.Model, ts, sync, meta, feed)
    }

    constructor (lib: TS.Lib)
      ensures Valid() && fresh(t.Repr) && this.lib == lib
      ensures State() == TS.State(PT.Nil, None, false, TS.Meta(map[], map[], map[]), [])
    {
      this.lib := lib;
      t := new OcTree.Tree();
      sync := false;
      meta := TS.Meta(map[], map[], map[]);
      ts := None;
      feed := [];
    }

    method AddInt(c: TS.Counter, k: int)
      modifies this`meta
      ensures State() == TS.AddInt(old(State()), c, k)
    {
      var n := if c in meta.ints then meta.ints[c] else 0;
      meta := meta.(ints := meta.ints[c := n + k]);
    }

    method CheckTimestamp(n: int)
      modifies this`ts
      ensures State() == TS.CheckTimestamp(old(State()), n)
    {
      if ts.None? || n > ts.value {
        ts := Some(n);
      }
    }

    /** The metadata part of gnmiUpdate. */
    method UpdateOwnFields(name: string, v: TypedVal) returns (ok: bool)
      modifies this`sync, this`meta
      ensures ok == TS.MetaEffect(old(State()), name, v).Some?
      ensures State() == TS.MetaEffect(old(State()), name, v).GetOr(old(State()))
    {
      ok := true;
      if name == TS.SYNC {
        if !v.BoolVal? { return false; }
        sync := v.bv;
        meta := meta.(bools := meta.bools[TS.SYNC := sync]);
      } else if name == TS.CONNECTED {
        if !v.BoolVal? { return false; }
        meta := meta.(bools := meta.bools[TS.CONNECTED := v.bv]);
      } else if name == TS.CONNECTED_ADDR || name == TS.CONNECT_ERROR {
        if !v.StringVal? { return false; }
        meta := meta.(strs := meta.strs[name := v.sv]);
      }
    }

    /** gnmiUpdate on an existing leaf.  Like its callers it returns the leaf to pass to the
        client, if any, and whether there was an error; `o` names the case. */
    method UpdateExisting(path: Path, leaf: OcTree.Tree, n: Notification)
      returns (nd: OcTree.Tree?, err: bool, ghost o: TS.Outcome)
      requires Valid() && |n.updates| > 0
      requires leaf in t.Repr && leaf.Valid() && leaf.leafBranch.Val? && t.At(path, leaf)
      requires PT.Look(t.Model, path) == Some(leaf.leafBranch.v)
      modifies this`meta, t.Repr
      ensures Valid() && t.Repr == old(t.Repr)
      ensures TS.Updated(State(), o) == TS.UpdateExisting(lib, old(State()), path, old(leaf.leafBranch.v), n)
      ensures nd == (if o.Notified? then leaf else null) && err == o.IsError()
      ensures nd != null ==> o == TS.Notified(nd.Model)
    {
      var old_ := leaf.leafBranch.v;
      if n.ts < old_.ts || (n.ts == old_.ts && old_ == n) {
        AddInt(TS.StaleCount, 1);
        return null, true, TS.Stale;
      }
      t.UpdateLeaf(path, leaf, n);
      if TS.SameValue(lib, old_, n) {
        AddInt(TS.SuppressedCount, 1);
        return null, false, TS.Suppressed;
      }
      return leaf, false, TS.Notified(PT.Leaf(n));
    }

    /** gnmiUpdate where there is no node yet. */
    method AddNew(path: Path, n: Notification)
      returns (nd: OcTree.Tree?, err: bool, ghost o: TS.Outcome)
      requires Valid()
      modifies this`meta, t.Repr
      ensures Valid() && fresh(t.Repr - old(t.Repr))
      ensures TS.Updated(State(), o) == TS.AddNew(old(State()), path, n)
      ensures err == o.IsError() && (nd != null) == o.Notified?
      ensures nd != null ==> o == TS.Notified(nd.Model)
    {
      PT.FailedAdd(t.Model, path, n);
      var ok := t.Add(path, n);
      if !ok { return null, true, TS.TreeError; }
      PT.AddedNodeExists(old(t.Model), path, n);
      if TS.IsReal(path) {
        AddInt(TS.LeafCount, 1);
        AddInt(TS.AddCount, 1);
      }
      nd := t.Get(path);
      err, o := false, TS.Notified(nd.Model);
    }

    /** gnmiUpdate. */
    method UpdateOne(n: Notification)
      returns (nd: OcTree.Tree?, err: bool, ghost o: TS.Outcome)
      requires Valid() && |n.updates| > 0 && TS.PathOk(TS.JoinUpdate(lib, n))
      modifies this`sync, this`meta, t.Repr
      ensures Valid() && fresh(t.Repr - old(t.Repr))
      ensures TS.Updated(State(), o) == TS.UpdateOne(lib, old(State()), n)
      ensures err == o.IsError() && (nd != null) == o.Notified?
      ensures nd != null ==> o == TS.Notified(nd.Model)
    {
      var path := TS.JoinUpdate(lib, n);
      if path[0] == TS.ROOT {
        var ok := UpdateOwnFields(path[1], n.updates[0].val);
        if !ok { return null, true, TS.MetaTypeError; }
      }
      var leaf := t.Get(path);
      if leaf == null {
        nd, err, o := AddNew(path, n);
      } else {
        if leaf.leafBranch.Val? {
          nd, err, o := UpdateExisting(path, leaf, n);
        } else {
          return null, false, TS.Collision;
        }
      }
    }

    /** Calls the client with a node of the tree. */
    ghost method Client(c: TS.Call)
      modifies this`feed
      ensures State() == old(State()).(feed := old(feed) + [c])
    {
      feed := feed + [c];
    }

    /** Counts and tells the client, when there is something to tell. */
    method Tell(nd: OcTree.Tree?, k: int, ghost o: TS.Outcome)
      requires (nd != null) == o.Notified? && (nd != null ==> o == TS.Notified(nd.Model))
      modifies this`meta, this`feed
      ensures State() == TS.Tell(TS.Updated(old(State()), o), k)
    {
      if nd != null {
        AddInt(TS.UpdateCount, k);
        Client(TS.Leafed(nd.Model));
      }
    }

    method ResetEntry(name: string)
      modifies this`meta
      ensures State() == TS.ResetEntry(lib, old(State()), name)
    {
      var c := lib.counter(name);
      var ints := meta.ints;
      if c.Some? { ints := ints[c.value := 0]; }
      meta := TS.Meta(ints, meta.bools - {name}, meta.strs - {name});
    }

    /** gnmiRemove: the tree reports no removed leaf, so the method returns before it counts any. */
    method Remove(n: Notification)
      requires Valid() && |n.deletes| > 0 && TS.PathOk(TS.JoinDelete(lib, n))
      modifies this`meta, t.Repr
      ensures Valid() && t.Repr == old(t.Repr)
      ensures State() == TS.Remove(lib, old(State()), n)
    {
      var path := TS.JoinDelete(lib, n);
      if path[0] == TS.ROOT {
        ResetEntry(path[1]);
      }
      var leaves := t.DeleteConditional(path, TS.OlderThan(n.ts));
      // The counting and the client calls that follow here depend on a non-empty report.
      assert leaves == [];
    }

    /** The updates of a notification, one by one. */
    method UpdateAll(n: Notification) returns (ok: bool)
      requires Valid() && TS.NotiOk(lib, n) && !n.atomic
      modifies this`sync, this`meta, this`feed, t.Repr
      ensures Valid() && fresh(t.Repr - old(t.Repr))
      ensures TS.Response(State(), ok) == TS.UpdateAll(lib, old(State()), n, |n.updates|)
    {
      hide TS.UpdateOne, TS.Tell;
      ok := true;
      var i := 0;
      while i < |n.updates|
        invariant 0 <= i <= |n.updates|
        invariant Valid() && fresh(t.Repr - old(t.Repr))
        invariant TS.Response(State(), ok) == TS.UpdateAll(lib, old(State()), n, i)
      {
        var noti := TS.OnlyUpdate(n, n.updates[i]);
        var nd, err, o := UpdateOne(noti);
        if err { ok := false; }
        Tell(nd, 1, o);
        i := i + 1;
      }
    }

    /** The deletes of a notification, one by one. */
    method RemoveAll(n: Notification)
      requires Valid() && TS.NotiOk(lib, n) && !n.atomic
      modifies this`meta, t.Repr
      ensures Valid() && t.Repr == old(t.Repr)
      ensures State() == TS.RemoveAll(lib, old(State()), n, |n.deletes|)
    {
      hide TS.Remove;
      var i := 0;
      while i < |n.deletes|
        invariant 0 <= i <= |n.deletes|
        invariant Valid() && t.Repr == old(t.Repr)
        invariant State() == TS.RemoveAll(lib, old(State()), n, i)
      {
        AddInt(TS.UpdateCount, 1);
        Remove(TS.OnlyDelete(n, n.deletes[i]));
        i := i + 1;
      }
    }

    method GnmiUpdate(n: Notification) returns (ok: bool)
      requires Valid() && TS.NotiOk(lib, n)
      modifies this`ts, this`sync, this`meta, this`feed, t.Repr
      ensures Valid() && fresh(t.Repr - old(t.Repr))
      ensures TS.Response(State(), ok) == TS.GnmiUpdate(lib, old(State()), n)
    {
      CheckTimestamp(n.ts);
      ok := true;
      if n.atomic {
        if |n.deletes| > 0 { return false; }
        if |n.updates| == 0 {
          AddInt(TS.EmptyCount, 1);
        } else {
          var nd, err, o := UpdateOne(n);
          Tell(nd, |n.updates|, o);
          ok := !err;
        }
      } else if |n.updates| + |n.deletes| > 1 {
        ok := UpdateAll(n);
        RemoveAll(n);
      } else if |n.updates| == 1 {
        assert n.updates[0] in n.updates;
        var nd, err, o := UpdateOne(n);
        Tell(nd, 1, o);
        ok := !err;
      } else if |n.deletes| == 1 {
        assert n.deletes[0] in n.deletes;
        AddInt(TS.UpdateCount, 1);
        Remove(n);
      } else {
        AddInt(TS.EmptyCount, 1);
      }
    }

    /** updateMeta: the notifications it decides to send are given. */
    method UpdateMeta(metas: seq<Notification>)
      requires Valid() && forall n | n in metas :: TS.MetaNoti(lib, n)
      modifies this`sync, this`meta, this`feed, t.Repr
      ensures Valid() && fresh(t.Repr - old(t.Repr))
      ensures State() == TS.UpdateMeta(lib, old(State()), metas)
    {
      var i := 0;
      while i < |metas|
        invariant 0 <= i <= |metas|
        invariant Valid() && fresh(t.Repr - old(t.Repr))
        invariant forall n | n in metas[..i] :: TS.MetaNoti(lib, n)
        invariant State() == TS.UpdateMeta(lib, old(State()), metas[..i])
      {
        var n := metas[i];
        assert TS.MetaNoti(lib, n) by { assert n in metas; }
        assert metas[..i + 1][..i] == metas[..i];
        var nd, _, o := UpdateOne(n);
        if nd != null { Client(TS.Leafed(nd.Model)); }
        i := i + 1;
      }
      assert metas[..i] == metas;
    }

    method DropRoot(root: string)
      requires Valid()
      modifies this`feed, t.Repr
      ensures Valid() && t.Repr == old(t.Repr)
      ensures State() == TS.DropRoot(old(State()), root)
    {
      var _ := t.DeleteConditional([root], TS.Always());
      Client(TS.RootDeleted(root));
    }

    /** Reset: clears the metadata, sends it again, and deletes every other root of the tree, in
        the order `roots` in which the map iteration yields them. */
    method Reset(metas: seq<Notification>) returns (ghost roots: seq<string>)
      requires Valid() && forall n | n in metas :: TS.MetaNoti(lib, n)
      modifies this`sync, this`meta, this`feed, t.Repr
      ensures Valid() && fresh(t.Repr - old(t.Repr))
      ensures var st := TS.UpdateMeta(lib, TS.ClearMeta(old(State())), metas);
              && State() == TS.DropRoots(st, roots)
              && forall k :: k in roots <==> k in PT.Children(st.tree) && k != TS.ROOT
    {
      hide TS.DropRoot, TS.UpdateMeta;
      meta := TS.Meta(map[], map[], map[]);
      UpdateMeta(metas);
      ghost var st := State();
      roots := [];
      var children: set<string> := if t.leafBranch.Kids? then t.leafBranch.m.Keys else {};
      t.Open();
      assert children == PT.Children(st.tree).Keys;
      ghost var all := children;
      while children != {}
        invariant children <= all
        invariant Valid() && fresh(t.Repr - old(t.Repr))
        invariant forall k :: k in roots <==> k in all - children && k != TS.ROOT
        invariant State() == TS.DropRoots(st, roots)
        decreases children
      {
        var root :| root in children;
        children := children - {root};
        if root != TS.ROOT {
          DropRoot(root);
          roots := roots + [root];
          assert roots[..|roots| - 1] + [root] == roots;
        }
      }
    }
  }
}
