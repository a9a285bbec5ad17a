/** The data tree: patterns of path elements, where `*` stands for any element, with a value at
    each; lookup by longest match. */
module Dtree {
  import opened Gnmi

  // ---------------------------------------------------------------- on values

  /** The state of a tree: for each first element of a pattern, the value there and the rest. */
  datatype Trie = Trie(branch: map<string, TrieBranch>)
  datatype TrieBranch = TrieBranch(value: Json, t: Trie)

  const EMPTY: Trie := Trie(map[])

  /** What stands under exactly this pattern. */
  function Lookup(t: Trie, pattern: Path): Option<TrieBranch>
    requires pattern != []
    decreases pattern
  {
    if pattern[0] !in t.branch then None
    else if |pattern| == 1 then Some(t.branch[pattern[0]])
    else Lookup(t.branch[pattern[0]].t, pattern[1..])
  }

  function BranchAt(t: Trie, k: string): TrieBranch {
    if k in t.branch then t.branch[k] else TrieBranch(Null, EMPTY)
  }

  function Added(t: Trie, path: Path, v: Json): Trie
    decreases path
  {
    if path == [] then t
    else
      var b := BranchAt(t, path[0]);
      Trie(t.branch[path[0] := if |path| == 1 then b.(value := v) else b.(t := Added(b.t, path[1..], v))])
  }

  /** The branch that a lookup of `k` enters: the one named so, or else the wildcard. */
  function Chosen(t: Trie, k: string): Option<string> {
    if k in t.branch then Some(k) else if "*" in t.branch then Some("*") else None
  }

  function Lpm(t: Trie, path: Path): Option<TrieBranch>
    requires path != []
    decreases path
  {
    match Chosen(t, path[0])
    case None => None
    case Some(k) =>
      var b := t.branch[k];
      if |path| == 1 then Some(b)
      else match Lpm(b.t, path[1..])
        case None => Some(b)
        case Some(x) => Some(x)
  }

  /** The full match; a last branch without a value gives way to a wildcard with one. */
  function Found(t: Trie, path: Path): Option<TrieBranch>
    requires path != []
    decreases path
  {
    match Chosen(t, path[0])
    case None => None
    case Some(k) =>
      var b := t.branch[k];
      if |path| > 1 then Found(b.t, path[1..])
      else if b.value == Null && "*" in t.branch && t.branch["*"].value != Null then Some(t.branch["*"])
      else Some(b)
  }

  // ---------------------------------------------------------------- on the heap

  class Branch {
    var value: Json
    const t: Tree

    constructor (value: Json, t: Tree)
      ensures this.value == value && this.t == t
    {
      this.value := value;
      this.t := t;
    }
  }

  class Tree {
    var branch: map<string, Branch>
    ghost var Repr: set<object>
    ghost var Model: Trie

    ghost predicate Valid()
      reads this, Repr
      ensures Valid() ==> this in Repr
      decreases Repr, 1
    {
      this in Repr && Linked()
    }

    ghost predicate Linked()
      requires this in Repr
      reads this, Repr
      decreases Repr, 0
    {
      && (forall k | k in branch ::
           && branch[k] in Repr && branch[k].t in Repr && branch[k].t.Repr <= Repr
           && this !in branch[k].t.Repr && branch[k] !in branch[k].t.Repr && branch[k].t.Valid())
      && (forall k, l | k in branch && l in branch && k != l :: Part(branch[k]) !! Part(branch[l]))
      && Model == Trie(map k | k in branch :: TrieBranch(branch[k].value, branch[k].t.Model))
    }

    static ghost function Part(b: Branch): set<object>
      reads b.t
    {
      {b} + b.t.Repr
    }

    constructor ()
      ensures Valid() && fresh(Repr) && Model == EMPTY
    {
      branch := map[];
      Repr := {this};
      Model := EMPTY;
    }

    lemma Close()
      requires this in Repr && Linked()
      ensures Valid()
    {
    }

    /** Brings the ghost state up to date after the branch under `k` was changed or added. */
    ghost method Relink(k: string, models: map<string, TrieBranch>)
      requires this in Repr && k in branch && branch[k].t.Valid()
      requires this !in branch[k].t.Repr && branch[k] !in branch[k].t.Repr
      requires forall l | l in branch && l != k ::
                 && Part(branch[l]) <= Repr && branch[l].t in Repr && this !in branch[l].t.Repr
                 && branch[l] !in branch[l].t.Repr && branch[l].t.Valid() && Part(branch[l]) !! Part(branch[k])
      requires forall l, l' | l in branch && l' in branch && l != k && l' != k && l != l' ::
                 Part(branch[l]) !! Part(branch[l'])
      requires models.Keys == branch.Keys
      requires forall l | l in branch :: models[l] == TrieBranch(branch[l].value, branch[l].t.Model)
      modifies this`Repr, this`Model
      ensures Valid() && Repr == old(Repr) + Part(branch[k]) && Model == Trie(models)
    {
      hide Valid;
      Repr := Repr + Part(branch[k]);
      Model := Trie(models);
      assert branch[k].t in branch[k].t.Repr by { branch[k].t.InOwn(); }
      assert models == map l | l in branch :: TrieBranch(branch[l].value, branch[l].t.Model);
      Close();
    }

    lemma InOwn()
      requires Valid()
      ensures this in Repr
    {
    }

    /** Makes a branch without a value where there is none. */
    method Ensure(k: string, v: Json)
      requires Valid()
      modifies Repr
      ensures Valid() && fresh(Repr - old(Repr)) && k in branch
      ensures Model == if k in old(Model).branch then old(Model) else Trie(old(Model).branch[k := TrieBranch(v, EMPTY)])
    {
      if k !in branch {
        ghost var m0 := Model.branch;
        var c := new Tree();
        var b := new Branch(v, c);
        branch := branch[k := b];
        Relink(k, m0[k := TrieBranch(v, EMPTY)]);
      }
    }

    /** The lock is held throughout, so the steps of an Add are not interleaved. */
    method Add(path: Path, v: Json)
      requires Valid()
      modifies Repr
      ensures Valid() && fresh(Repr - old(Repr))
      ensures Model == Added(old(Model), path, v)
      decreases |path|, 2
    {
      if path == [] {
      } else if |path| == 1 {
        AddTerminalValue(path[0], v);
      } else {
        IntermediateAdd(path, v);
      }
    }

    method AddTerminalValue(k: string, v: Json)
      requires Valid()
      modifies Repr
      ensures Valid() && fresh(Repr - old(Repr))
      ensures Model == Trie(old(Model).branch[k := BranchAt(old(Model), k).(value := v)])
    {
      ghost var m0 := Model.branch;
      if k !in branch {
        Ensure(k, v);
      } else {
        branch[k].value := v;
        Relink(k, m0[k := m0[k].(value := v)]);
      }
    }

    method IntermediateAdd(path: Path, v: Json)
      requires Valid() && |path| > 1
      modifies Repr
      ensures Valid() && fresh(Repr - old(Repr))
      ensures Model == Added(old(Model), path, v)
      decreases |path|, 1
    {
      hide Added, Valid;
      IntermediateIs(Model, path, v);
      Ensure(path[0], Null);
      AddBelow(path[0], path[1..], v);
    }

    static lemma IntermediateIs(t: Trie, path: Path, v: Json)
      requires |path| > 1
      ensures var b := BranchAt(t, path[0]);
              Added(t, path, v) == Trie(t.branch[path[0] := b.(t := Added(b.t, path[1..], v))])
    {
    }

    method AddBelow(k: string, rest: Path, v: Json)
      requires Valid() && k in branch && k in Model.branch
      modifies Repr
      ensures Valid() && fresh(Repr - old(Repr))
      ensures Model == var b := old(Model).branch[k]; Trie(old(Model).branch[k := b.(t := Added(b.t, rest, v))])
      decreases |rest|, 3
    {
      hide Added;
      ghost var m1 := Model.branch;
      var c := branch[k].t;
      c.Add(rest, v);
      Relink(k, m1[k := m1[k].(t := c.Model)]);
    }

    /** getlpm. */
    method GetLpm(path: Path) returns (b: Branch?)
      requires Valid() && path != []
      ensures (b == null) == Lpm(Model, path).None?
      ensures b != null ==> b in Repr && b.t in Repr && Lpm(Model, path) == Some(TrieBranch(b.value, b.t.Model))
      decreases |path|
    {
      b := null;
      if path[0] in branch {
        b := branch[path[0]];
      } else if "*" in branch {
        b := branch["*"];
      }
      if b != null && |path| > 1 {
        var x := b.t.GetLpm(path[1..]);
        if x != null { b := x; }
      }
    }

    /** Get. */
    method Get(path: Path) returns (b: Branch?)
      requires Valid() && path != []
      ensures (b == null) == Found(Model, path).None?
      ensures b != null ==> b in Repr && b.t in Repr && Found(Model, path) == Some(TrieBranch(b.value, b.t.Model))
      decreases |path|
    {
      b := null;
      if path[0] in branch {
        b := branch[path[0]];
      } else if "*" in branch {
        b := branch["*"];
      }
      if b == null { return; }
      if |path| > 1 {
        b := b.t.Get(path[1..]);
      } else if b.value == Null && "*" in branch && branch["*"].value != Null {
        b := branch["*"];
      }
    }
  }
}
