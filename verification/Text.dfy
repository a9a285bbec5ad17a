/** Cutting texts at a separator character and joining them again. */
module Text {

  /** The pieces between the occurrences of `c`; at least one, possibly empty. */
  function Split(s: string, c: char): (r: seq<string>)
    ensures |r| >= 1
  {
    if s == [] then [""]
    else
      var r := Split(s[1..], c);
      if s[0] == c then [""] + r else [[s[0]] + r[0]] + r[1..]
  }

  function Join(parts: seq<string>, c: char): string {
    if parts == [] then ""
    else if |parts| == 1 then parts[0]
    else parts[0] + [c] + Join(parts[1..], c)
  }

  lemma {:induction false} SplitNone(s: string, c: char)
    requires c !in s
    ensures Split(s, c) == [s]
  {
    if s != [] {
      SplitNone(s[1..], c);
      assert [s[0]] + s[1..] == s;
    }
  }

  lemma {:induction false} SplitFirst(a: string, b: string, c: char)
    requires c !in a
    ensures Split(a + [c] + b, c) == [a] + Split(b, c)
  {
    var s := a + [c] + b;
    if a == [] {
      assert s[1..] == b;
    } else {
      SplitFirst(a[1..], b, c);
      assert s[1..] == a[1..] + [c] + b;
      assert [a[0]] + a[1..] == a;
    }
  }

  /** Splitting undoes joining when no part contains the separator. */
  lemma {:induction false} SplitJoin(parts: seq<string>, c: char)
    requires parts != [] && forall i | 0 <= i < |parts| :: c !in parts[i]
    ensures Split(Join(parts, c), c) == parts
  {
    if |parts| == 1 {
      SplitNone(parts[0], c);
    } else {
      SplitJoin(parts[1..], c);
      SplitFirst(parts[0], Join(parts[1..], c), c);
    }
  }

  /** Joining undoes splitting, and no piece holds the separator. */
  lemma {:induction false} JoinSplit(s: string, c: char)
    ensures Join(Split(s, c), c) == s
    ensures forall i | 0 <= i < |Split(s, c)| :: c !in Split(s, c)[i]
  {
    if s != [] {
      JoinSplit(s[1..], c);
      var r := Split(s[1..], c);
      assert s == [s[0]] + s[1..];
      if s[0] == c {
        assert ([""] + r)[1..] == r;
      } else {
        assert ([[s[0]] + r[0]] + r[1..])[1..] == r[1..];
      }
    }
  }

  /** The pieces are the one way to write the text with separators between pieces without one. */
  lemma SplitMeaning(s: string, c: char, parts: seq<string>)
    ensures parts == Split(s, c) <==>
              parts != [] && s == Join(parts, c) && forall i | 0 <= i < |parts| :: c !in parts[i]
  {
    JoinSplit(s, c);
    if parts != [] && s == Join(parts, c) && forall i | 0 <= i < |parts| :: c !in parts[i] { SplitJoin(parts, c); }
  }

  lemma {:induction false} JoinMore(parts: seq<string>, last: string, c: char)
    requires parts != []
    ensures Join(parts + [last], c) == Join(parts, c) + [c] + last
  {
    if |parts| > 1 {
      JoinMore(parts[1..], last, c);
      assert (parts + [last])[1..] == parts[1..] + [last];
    } else {
      assert (parts + [last])[1..] == [last];
    }
  }

  lemma JoinNone(parts: seq<string>, c: char)
    ensures Join(parts[..0], c) == ""
  {
  }

  lemma JoinOne(part: string, c: char)
    ensures Join([part], c) == part
  {
  }

  lemma JoinNext(parts: seq<string>, i: nat, c: char)
    requires i < |parts|
    ensures Join(parts[..i + 1], c) == Join(parts[..i], c) + (if i > 0 then [c] else "") + parts[i]
  {
    assert parts[..i + 1] == parts[..i] + [parts[i]];
    if i > 0 { JoinMore(parts[..i], parts[i], c); }
  }

  lemma JoinLonger(init: seq<string>, last: string, c: char, sep: char)
    ensures Join(init + [last + [c]], sep) == Join(init + [last], sep) + [c]
  {
    if init != [] {
      JoinMore(init, last, sep);
      JoinMore(init, last + [c], sep);
    }
  }

  /** strings.Trim with one cut character. */
  function Trim(s: string, c: char): string
    decreases |s|
  {
    if s == [] then s
    else if s[0] == c then Trim(s[1..], c)
    else if s[|s| - 1] == c then Trim(s[..|s| - 1], c)
    else s
  }

  /** `t` lies between `i` and `j`, with `c` only outside and not at its ends. */
  ghost predicate Core(s: string, c: char, t: string, i: int, j: int) {
    && 0 <= i <= j <= |s| && t == s[i..j]
    && (forall n | 0 <= n < i :: s[n] == c) && (forall n | j <= n < |s| :: s[n] == c)
    && (t != [] ==> t[0] != c && t[|t| - 1] != c)
  }

  /** `t` is the text without the `c` at both ends. */
  ghost predicate Trimmed(s: string, c: char, t: string) {
    exists i, j :: Core(s, c, t, i, j)
  }

  lemma {:induction false} TrimMeaning(s: string, c: char)
    ensures Trimmed(s, c, Trim(s, c))
    decreases |s|
  {
    var t := Trim(s, c);
    if s == [] || (s[0] != c && s[|s| - 1] != c) {
      assert Core(s, c, t, 0, |s|);
    } else if s[0] == c {
      TrimMeaning(s[1..], c);
      var i, j :| Core(s[1..], c, t, i, j);
      CoreShift(s, c, t, i, j);
    } else {
      TrimMeaning(s[..|s| - 1], c);
      var i, j :| Core(s[..|s| - 1], c, t, i, j);
      CoreLonger(s, c, t, i, j);
    }
  }

  lemma CoreShift(s: string, c: char, t: string, i: int, j: int)
    requires s != [] && s[0] == c && Core(s[1..], c, t, i, j)
    ensures Core(s, c, t, i + 1, j + 1)
  {
    assert forall n | 0 < n < |s| :: s[n] == s[1..][n - 1];
  }

  lemma CoreLonger(s: string, c: char, t: string, i: int, j: int)
    requires s != [] && s[|s| - 1] == c && Core(s[..|s| - 1], c, t, i, j)
    ensures Core(s, c, t, i, j)
  {
    assert forall n | 0 <= n < |s| - 1 :: s[n] == s[..|s| - 1][n];
  }

  lemma OneTrimmed(s: string, c: char, a: string, b: string)
    requires Trimmed(s, c, a) && Trimmed(s, c, b)
    ensures a == b
  {
    var i, j :| Core(s, c, a, i, j);
    var k, l :| Core(s, c, b, k, l);
    if a != [] { CoreEnds(s, c, a, i, j); }
    if b != [] { CoreEnds(s, c, b, k, l); }
  }

  lemma CoreEnds(s: string, c: char, t: string, i: int, j: int)
    requires Core(s, c, t, i, j) && t != []
    ensures i < j && s[i] != c && s[j - 1] != c
  {
    assert s[i] == t[0] && s[j - 1] == t[|t| - 1];
  }
}
