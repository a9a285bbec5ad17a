/** The order of strings and of paths, and sorting a set of names. */
module Lex {

  /** Strict lexicographic order, as sort.Strings uses it. */
  predicate StrLess(a: string, b: string) {
    if b == [] then false
    else if a == [] then true
    else a[0] < b[0] || (a[0] == b[0] && StrLess(a[1..], b[1..]))
  }

  /** Strict lexicographic order of element sequences. */
  predicate PathLess(p: seq<string>, q: seq<string>) {
    if q == [] then false
    else if p == [] then true
    else StrLess(p[0], q[0]) || (p[0] == q[0] && PathLess(p[1..], q[1..]))
  }

  /** A text is less than another when it is a beginning of it, or has the smaller character where
      the two part. */
  lemma {:induction false} StrLessMeaning(a: string, b: string)
    ensures StrLess(a, b) <==> a < b || exists i :: PartsAt(a, b, i) && a[i] < b[i]
  {
    if a != [] && b != [] {
      var x, y := a[1..], b[1..];
      assert a == [a[0]] + x && b == [b[0]] + y;
      if a[0] == b[0] {
        StrLessMeaning(x, y);
        if i :| PartsAt(x, y, i) && x[i] < y[i] {
          assert a[..i + 1] == [a[0]] + x[..i] && b[..i + 1] == [b[0]] + y[..i];
          assert PartsAt(a, b, i + 1);
        }
        if i :| PartsAt(a, b, i) && a[i] < b[i] {
          assert x[..i - 1] == a[..i][1..] && y[..i - 1] == b[..i][1..];
          assert PartsAt(x, y, i - 1);
        }
      } else {
        if a[0] < b[0] { assert PartsAt(a, b, 0); }
        if i :| PartsAt(a, b, i) && a[i] < b[i] {
          if i > 0 { assert a[..i][0] == b[..i][0]; }
        }
      }
    }
  }

  /** The index of the first difference. */
  predicate PartsAt(a: string, b: string, i: int) {
    0 <= i < |a| && i < |b| && a[..i] == b[..i] && a[i] != b[i]
  }

  lemma {:induction false} StrTotal(a: string, b: string)
    ensures a == b || StrLess(a, b) || StrLess(b, a)
    ensures !(StrLess(a, b) && StrLess(b, a))
    ensures !StrLess(a, a)
  {
    if a != [] && b != [] {
      StrTotal(a[1..], b[1..]);
      assert a == [a[0]] + a[1..] && b == [b[0]] + b[1..];
    }
    if a != [] { StrTotal(a[1..], a[1..]); }
  }

  lemma {:induction false} StrTrans(a: string, b: string, c: string)
    requires StrLess(a, b) && StrLess(b, c)
    ensures StrLess(a, c)
  {
    if a != [] && a[0] == b[0] && b[0] == c[0] { StrTrans(a[1..], b[1..], c[1..]); }
  }

  ghost predicate Increasing(s: seq<string>) {
    forall i, j | 0 <= i < j < |s| :: StrLess(s[i], s[j])
  }

  /** A finite non-empty set of strings has a least element. */
  lemma {:induction false} LeastExists(names: set<string>)
    requires names != {}
    ensures exists m :: m in names && forall x | x in names && x != m :: StrLess(m, x)
    decreases names
  {
    var a :| a in names;
    var rest := names - {a};
    if rest == {} {
      assert a in names && forall x | x in names && x != a :: x in rest;
    } else {
      LeastExists(rest);
      var m :| m in rest && forall x | x in rest && x != m :: StrLess(m, x);
      StrTotal(a, m);
      var least := if StrLess(a, m) then a else m;
      forall x | x in names && x != least ensures StrLess(least, x) {
        if least == a && x != m { assert x in rest; StrTrans(a, m, x); }
        if least == m && x != a { assert x in rest; }
      }
      assert least in names;
    }
  }

  /** Every finite set of names can be listed in increasing order. */
  lemma {:induction false} Sorted(names: set<string>) returns (s: seq<string>)
    ensures Increasing(s)
    ensures forall x :: x in s <==> x in names
    decreases names
  {
    s := [];
    if names != {} {
      LeastExists(names);
      var m :| m in names && forall x | x in names && x != m :: StrLess(m, x);
      var rest := Sorted(names - {m});
      s := [m] + rest;
      forall i, j | 0 <= i < j < |s| ensures StrLess(s[i], s[j]) {
        assert s[j] == rest[j - 1] && s[j] in rest;
      }
    }
  }

  /** The names of a set in increasing order. */
  method SortStrings(names: set<string>) returns (s: seq<string>)
    ensures Increasing(s)
    ensures forall x :: x in s <==> x in names
  {
    s := [];
    var todo := names;
    while todo != {}
      invariant todo <= names
      invariant forall x :: x in s <==> x in names && x !in todo
      invariant Increasing(s)
      invariant forall x, y | x in s && y in todo :: StrLess(x, y)
      decreases todo
    {
      LeastExists(todo);
      var m :| m in todo && forall x | x in todo && x != m :: StrLess(m, x);
      s := s + [m];
      todo := todo - {m};
    }
  }

  /** Two increasing sequences with the same elements are the same sequence. */
  lemma {:induction false} IncreasingUnique(s: seq<string>, t: seq<string>)
    requires Increasing(s) && Increasing(t)
    requires forall x :: x in s <==> x in t
    ensures s == t
    decreases |s|
  {
    assert t != [] ==> t[0] in t;
    if s != [] {
      assert s[0] in t && t != [];
      assert t[0] in s;
      var i :| 0 <= i < |t| && t[i] == s[0];
      var j :| 0 <= j < |s| && s[j] == t[0];
      StrTotal(s[0], t[0]);
      assert s[0] == t[0];
      forall x ensures x in s[1..] <==> x in t[1..] {
        if x in s[1..] {
          var a :| 1 <= a < |s| && s[a] == x;
          StrTotal(x, x);
          assert x in t && x != t[0];
        }
        if x in t[1..] {
          var a :| 1 <= a < |t| && t[a] == x;
          StrTotal(x, x);
          assert x in s && x != s[0];
        }
      }
      IncreasingUnique(s[1..], t[1..]);
    }
  }
}
