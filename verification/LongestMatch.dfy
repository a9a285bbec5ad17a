/** Which pattern a longest-match lookup finds, and what an Add changes. */
module LongestMatch {
  import opened Gnmi
  import opened Dtree

  /** The value under one pattern changes; proper prefixes of it come into being without a value;
      everything else stays. */
  lemma {:induction false} AddExact(t: Trie, p: Path, v: Json, q: Path)
    requires p != [] && q != []
    ensures var a, b := Lookup(t, q), Lookup(Added(t, p, v), q);
            && (b.Some? <==> a.Some? || q <= p)
            && (b.Some? ==> b.value.value == if q == p then v else if a.Some? then a.value.value else Null)
    decreases p
  {
    if q[0] == p[0] {
      assert p == [p[0]] + p[1..] && q == [q[0]] + q[1..];
      if |p| > 1 && |q| > 1 {
        AddExact(BranchAt(t, p[0]).t, p[1..], v, q[1..]);
      }
    } else {
      assert !(q <= p);
    }
  }

  /** The added value is found again, by both lookups. */
  lemma {:induction false} AddThenFind(t: Trie, p: Path, v: Json)
    requires p != []
    ensures var r := Lpm(Added(t, p, v), p); r.Some? && r.value.value == v
    ensures v != Null ==> var r := Found(Added(t, p, v), p); r.Some? && r.value.value == v
    decreases p
  {
    if |p| > 1 { AddThenFind(BranchAt(t, p[0]).t, p[1..], v); }
  }

  /** A full match stands under a pattern that matches the whole path; where it has no value, no
      sibling wildcard has one. */
  lemma {:induction false} FoundMatches(t: Trie, path: Path) returns (g: Path)
    requires path != [] && Found(t, path).Some?
    ensures |g| == |path| && Present(t, g, path) && Lookup(t, g) == Found(t, path)
    ensures var w := g[..|g| - 1] + ["*"];
            Found(t, path).value.value == Null && Lookup(t, w).Some? ==> Lookup(t, w).value.value == Null
    decreases path
  {
    var k := Chosen(t, path[0]).value;
    if |path| > 1 {
      var h := FoundMatches(t.branch[k].t, path[1..]);
      g := [k] + h;
      assert g[1..] == h;
      forall i | 0 <= i < |g| ensures g[i] == path[i] || g[i] == "*" {
        if i > 0 { assert h[i - 1] == path[1..][i - 1] || h[i - 1] == "*"; }
      }
      var w := g[..|g| - 1] + ["*"];
      assert w[1..] == h[..|h| - 1] + ["*"];
    } else {
      g := if Found(t, path).value == t.branch[k] then [k] else ["*"];
      assert g[..0] + ["*"] == ["*"];
    }
  }

  // ---------------------------------------------------------------- the pattern that is found

  /** The pattern matches a beginning of the path. */
  predicate Matches(pattern: Path, path: Path) {
    |pattern| <= |path| && forall i | 0 <= i < |pattern| :: pattern[i] == path[i] || pattern[i] == "*"
  }

  predicate Present(t: Trie, pattern: Path, path: Path) {
    pattern != [] && Matches(pattern, path) && Lookup(t, pattern).Some?
  }

  /** Where the two patterns part, `g` has the element of the path and `q` a wildcard. */
  ghost predicate Beats(g: Path, q: Path, path: Path) {
    exists i :: 0 <= i < |g| && i < |q| && i < |path| && g[..i] == q[..i] && g[i] == path[i]
      && q[i] == "*" && g[i] != "*"
  }

  /** The pattern matches, and every other one that matches is a beginning of it or is beaten. */
  ghost predicate Best(t: Trie, path: Path, g: Path) {
    Present(t, g, path) && forall q | Present(t, q, path) :: q <= g || Beats(g, q, path)
  }

  /** The walk of the lookup. */
  function Walk(t: Trie, path: Path): Path
    decreases path
  {
    if path == [] then []
    else match Chosen(t, path[0])
      case None => []
      case Some(k) => [k] + Walk(t.branch[k].t, path[1..])
  }

  lemma {:induction false} LpmIsWalk(t: Trie, path: Path)
    requires path != []
    ensures var g := Walk(t, path);
            if g == [] then Lpm(t, path) == None else Present(t, g, path) && Lpm(t, path) == Lookup(t, g)
    decreases path
  {
    if Chosen(t, path[0]).Some? && |path| > 1 {
      var b := t.branch[Chosen(t, path[0]).value];
      LpmIsWalk(b.t, path[1..]);
      var g, h := Walk(t, path), Walk(b.t, path[1..]);
      assert g[1..] == h;
      forall i | 0 <= i < |g| ensures g[i] == path[i] || g[i] == "*" {
        if i > 0 { assert h[i - 1] == path[1..][i - 1] || h[i - 1] == "*"; }
      }
    }
  }

  lemma {:induction false} WalkWins(t: Trie, path: Path, q: Path)
    requires Present(t, q, path)
    ensures var g := Walk(t, path); q <= g || Beats(g, q, path)
    decreases path
  {
    var g := Walk(t, path);
    assert q[0] in t.branch && g[0] == Chosen(t, path[0]).value;
    var h := Walk(t.branch[g[0]].t, path[1..]);
    assert g == [g[0]] + h;
    if g[0] != q[0] {
      assert g[..0] == q[..0];
    } else if |q| > 1 {
      forall i | 0 <= i < |q[1..]| ensures q[1..][i] == path[1..][i] || q[1..][i] == "*" {
        assert q[1..][i] == q[i + 1] && path[1..][i] == path[i + 1];
      }
      WalkWins(t.branch[g[0]].t, path[1..], q[1..]);
      assert q == [q[0]] + q[1..];
      if !(q[1..] <= h) {
        var i :| 0 <= i < |h| && i < |q[1..]| && i < |path[1..]| && h[..i] == q[1..][..i] && h[i] == path[1..][i]
            && q[1..][i] == "*" && h[i] != "*";
        assert g[..i + 1] == [g[0]] + h[..i] && q[..i + 1] == [q[0]] + q[1..][..i];
        assert g[i + 1] == path[i + 1] && q[i + 1] == "*";
      }
    }
  }

  lemma BestIsOne(t: Trie, path: Path, a: Path, b: Path)
    requires Best(t, path, a) && Best(t, path, b)
    ensures a == b
  {
    if !(a <= b && b <= a) {
      if a <= b { BeatsPrefix(a, b, path); }
      if b <= a { BeatsPrefix(b, a, path); }
      BeatsOnce(a, b, path);
    }
  }

  lemma BeatsPrefix(a: Path, b: Path, path: Path)
    requires a <= b
    ensures !Beats(a, b, path) && !Beats(b, a, path)
  {
  }

  lemma BeatsOnce(a: Path, b: Path, path: Path)
    ensures !(Beats(a, b, path) && Beats(b, a, path))
  {
    forall i, j | 0 <= i < |a| && i < |b| && a[..i] == b[..i] && 0 <= j < |a| && j < |b| && a[..j] == b[..j]
          && a[i] != b[i] && a[j] != b[j]
      ensures i == j
    {
      SameBefore(a, b, i);
      SameBefore(a, b, j);
    }
  }

  lemma SameBefore(a: Path, b: Path, n: nat)
    requires n <= |a| && n <= |b| && a[..n] == b[..n]
    ensures forall i | 0 <= i < n :: a[i] == b[i]
  {
    forall i | 0 <= i < n ensures a[i] == b[i] { assert a[..n][i] == b[..n][i]; }
  }

  /** A lookup finds the best pattern, and nothing exactly when no pattern matches. */
  lemma LpmFindsBest(t: Trie, path: Path)
    requires path != []
    ensures Lpm(t, path).None? <==> forall q :: !Present(t, q, path)
    ensures forall g :: Best(t, path, g) <==> g == Walk(t, path) && g != []
    ensures forall g | Best(t, path, g) :: Lpm(t, path) == Lookup(t, g)
  {
    LpmIsWalk(t, path);
    var w := Walk(t, path);
    forall q | Present(t, q, path) ensures q <= w || Beats(w, q, path) { WalkWins(t, path, q); }
    if w != [] { assert Best(t, path, w); }
    forall g | Best(t, path, g) ensures g == w && g != [] {
      assert w != [];
      BestIsOne(t, path, g, w);
    }
  }

  /** The full match, for every tree and path: there is one exactly when the best pattern matches the
      whole path.  It is what stands under this pattern if that has a value, or else what stands
      under the pattern with a wildcard at its end, if that has one. */
  lemma FoundIsBest(t: Trie, path: Path)
    requires path != []
    ensures Found(t, path).Some? <==> exists g :: Best(t, path, g) && |g| == |path|
    ensures forall g | Best(t, path, g) && |g| == |path| ::
              var a, b := Lookup(t, g), Lookup(t, g[..|g| - 1] + ["*"]);
              Found(t, path) == if a.value.value == Null && b.Some? && b.value.value != Null then b else a
  {
    hide Best, Walk, Found, Lookup;
    LpmFindsBest(t, path);
    FoundIsWalk(t, path);
  }

  lemma {:induction false} FoundIsWalk(t: Trie, path: Path)
    requires path != []
    ensures var g := Walk(t, path);
            && (Found(t, path).Some? <==> |g| == |path|)
            && (|g| == |path| ==>
                  var a, b := Lookup(t, g), Lookup(t, g[..|g| - 1] + ["*"]);
                  && a.Some?
                  && Found(t, path) == if a.value.value == Null && b.Some? && b.value.value != Null then b else a)
    decreases path
  {
    var g := Walk(t, path);
    if Chosen(t, path[0]).Some? {
      var k := Chosen(t, path[0]).value;
      if |path| > 1 {
        var rest := t.branch[k].t;
        FoundIsWalk(rest, path[1..]);
        var h := Walk(rest, path[1..]);
        assert g[1..] == h;
        if h != [] { assert (g[..|g| - 1] + ["*"])[1..] == h[..|h| - 1] + ["*"]; }
      } else {
        assert g == [k] && g[..0] + ["*"] == ["*"];
      }
    }
  }

  /** A longest pattern among those that match. */
  ghost predicate Longest(t: Trie, path: Path, g: Path) {
    Present(t, g, path) && forall q | Present(t, q, path) :: |q| <= |g|
  }

  ghost predicate Unbeaten(t: Trie, path: Path, g: Path) {
    forall q | Present(t, q, path) :: !Beats(q, g, path)
  }

  /** Where some pattern matches, the pattern found is a deepest one exactly when some longest
      pattern that matches loses to no other at a wildcard. */
  lemma LpmFindsDeepest(t: Trie, path: Path)
    requires path != [] && Lpm(t, path).Some?
    ensures Longest(t, path, Walk(t, path)) <==> exists g :: Longest(t, path, g) && Unbeaten(t, path, g)
  {
    hide Walk;
    var w := Walk(t, path);
    LpmIsWalk(t, path);
    if Longest(t, path, w) {
      forall q | Present(t, q, path) ensures !Beats(q, w, path) {
        WalkWins(t, path, q);
        BeatsOnce(w, q, path);
        if q <= w { BeatsPrefix(q, w, path); }
      }
      assert Unbeaten(t, path, w);
    } else if g :| Longest(t, path, g) && Unbeaten(t, path, g) {
      WalkWins(t, path, g);
    }
  }

  /** It is not always: a pattern that matches the whole path can lose to a shorter one. */
  lemma ShorterCanWin(v: Json)
    ensures var t := Added(Added(EMPTY, ["a"], v), ["*", "b"], v);
            Present(t, ["*", "b"], ["a", "b"]) && Walk(t, ["a", "b"]) == ["a"]
  {
  }
}
