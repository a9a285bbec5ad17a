/** Cleaning of values and keys: module prefixes are cut off names and texts, but not off what looks
    like an IPv6 address or a port. */
module Cleaning {
  import opened Gnmi

  // ---------------------------------------------------------------- what cleaning means

  /** `r` is what follows the last colon of `s`. */
  ghost predicate LastPart(s: string, r: string) {
    ':' !in r && (s == r || exists p: string :: s == p + ":" + r)
  }

  /** The text contains two colons side by side, or a slash. */
  ghost predicate Protected(s: string) {
    || (exists a: string, b: string :: s == a + "::" + b)
    || (exists a: string, b: string :: s == a + "/" + b)
  }

  ghost predicate CleanedText(s: string, c: string) {
    if Protected(s) then c == s else LastPart(s, c)
  }

  ghost predicate CleanedScalar(x: Json, c: Json) {
    if x.Str? then c.Str? && CleanedText(x.s, c.s) else c == x
  }

  /** What cleaning may make of a value: an object keeps one of the values of the names that
      become the same, any other value is cleaned itself. */
  ghost predicate CleanOf(x: Json, c: Json) {
    if x.Obj? then
      && c.Obj?
      && (forall k, n | k in x.fields && LastPart(k, n) :: n in c.fields)
      && (forall n | n in c.fields ::
            exists k :: k in x.fields && LastPart(k, n) && CleanedScalar(x.fields[k], c.fields[n]))
    else CleanedScalar(x, c)
  }

  /** What cleaning may make of the keys of a path element. */
  ghost predicate CleanedKey(key: map<string, string>, ck: map<string, string>) {
    && (forall k, n | k in key && LastPart(k, n) :: n in ck)
    && (forall n | n in ck :: exists k :: k in key && LastPart(k, n) && CleanedText(key[k], ck[n]))
  }

  /** The names have no prefix, and cleaning keeps the values. */
  ghost predicate AlreadyClean(key: map<string, string>) {
    forall k | k in key :: ':' !in k && CleanedText(key[k], key[k])
  }

  lemma OneLastPart(s: string, a: string, b: string)
    requires LastPart(s, a) && LastPart(s, b)
    ensures a == b
  {
    if s != a && s != b {
      var p: string :| s == p + ":" + a;
      var q: string :| s == q + ":" + b;
      AfterLast(s, p, a);
      AfterLast(s, q, b);
    }
  }

  /** The cut is at the last colon. */
  lemma AfterLast(s: string, p: string, r: string)
    requires s == p + ":" + r && ':' !in r
    ensures r == s[|p| + 1..] && s[|p|] == ':' && forall i | |p| < i < |s| :: s[i] != ':'
  {
    forall i | |p| < i < |s| ensures s[i] != ':' { assert s[i] == r[i - |p| - 1]; }
  }

  /** Cleaning is a function of the text. */
  lemma OneCleanedText(s: string, a: string, b: string)
    requires CleanedText(s, a) && CleanedText(s, b)
    ensures a == b
  {
    if !Protected(s) { OneLastPart(s, a, b); }
  }

  /** A cleaned text is clean. */
  lemma CleanTwice(s: string, c: string, c': string)
    requires CleanedText(s, c) && CleanedText(c, c')
    ensures c' == c
  {
    if !Protected(s) {
      assert LastPart(c, c);
      if !Protected(c) { OneLastPart(c, c', c); }
    }
  }

  lemma NoPrefix(s: string)
    requires ':' !in s
    ensures LastPart(s, s)
  {
  }

  lemma KeyFrom(key: map<string, string>, ck: map<string, string>, n: string) returns (k: string)
    requires CleanedKey(key, ck) && n in ck
    ensures k in key && LastPart(k, n) && CleanedText(key[k], ck[n])
  {
    k :| k in key && LastPart(k, n) && CleanedText(key[k], ck[n]);
  }

  lemma KeyTo(key: map<string, string>, ck: map<string, string>, k: string, n: string)
    requires CleanedKey(key, ck) && k in key && LastPart(k, n)
    ensures n in ck
  {
  }

  lemma CleanKeyStays(key: map<string, string>, ck: map<string, string>)
    requires AlreadyClean(key) && CleanedKey(key, ck)
    ensures ck == key
  {
    hide CleanedText, LastPart, CleanedKey;
    forall k | k in key ensures k in ck {
      NoPrefix(k);
      KeyTo(key, ck, k, k);
    }
    forall n | n in ck ensures n in key && ck[n] == key[n] {
      var k := KeyFrom(key, ck, n);
      NoPrefix(k);
      OneLastPart(k, k, n);
      OneCleanedText(key[k], key[k], ck[n]);
    }
  }

  /** A cleaned value is clean: cleaning it again changes nothing. */
  lemma CleaningIsIdempotent(x: Json, c: Json, c': Json)
    requires CleanOf(x, c) && CleanOf(c, c')
    ensures c' == c
  {
    hide CleanedText, LastPart;
    if x.Obj? {
      CleanFieldsStay(x, c, c');
    } else if x.Str? {
      CleanTwice(x.s, c.s, c'.s);
    }
  }

  lemma LastPartStays(s: string, r: string)
    requires LastPart(s, r)
    ensures LastPart(r, r)
  {
  }

  lemma FieldFrom(x: Json, c: Json, n: string) returns (k: string)
    requires x.Obj? && CleanOf(x, c) && n in c.fields
    ensures k in x.fields && LastPart(k, n) && CleanedScalar(x.fields[k], c.fields[n])
  {
    k :| k in x.fields && LastPart(k, n) && CleanedScalar(x.fields[k], c.fields[n]);
  }

  lemma FieldTo(x: Json, c: Json, k: string, n: string)
    requires x.Obj? && CleanOf(x, c) && k in x.fields && LastPart(k, n)
    ensures c.Obj? && n in c.fields
  {
  }

  lemma CleanFieldsStay(x: Json, c: Json, c': Json)
    requires x.Obj? && c.Obj? && c'.Obj? && CleanOf(x, c) && CleanOf(c, c')
    ensures c' == c
  {
    hide CleanedText, LastPart, CleanOf;
    forall n | n in c.fields ensures n in c'.fields {
      var k := FieldFrom(x, c, n);
      LastPartStays(k, n);
      FieldTo(c, c', n, n);
    }
    forall n' | n' in c'.fields ensures n' in c.fields && c'.fields[n'] == c.fields[n'] {
      var n := FieldFrom(c, c', n');
      var k := FieldFrom(x, c, n);
      LastPartStays(k, n);
      OneLastPart(n, n, n');
      if x.fields[k].Str? { CleanTwice(x.fields[k].s, c.fields[n].s, c'.fields[n].s); }
    }
    assert c.fields == c'.fields;
  }

  // ---------------------------------------------------------------- the code

  /** The text after the last colon. */
  function LastSegment(s: string): (r: string)
    ensures ':' !in r && |r| <= |s|
    decreases |s|
  {
    if ':' !in s then s else LastSegment(AfterColon(s))
  }

  function AfterColon(s: string): (r: string)
    requires ':' in s
    ensures |r| < |s|
  {
    if s[0] == ':' then s[1..] else AfterColon(s[1..])
  }

  lemma {:induction false} AfterColonMeaning(s: string) returns (p: string)
    requires ':' in s
    ensures s == p + ":" + AfterColon(s)
  {
    if s[0] == ':' {
      p := "";
    } else {
      var q := AfterColonMeaning(s[1..]);
      p := [s[0]] + q;
      assert s == [s[0]] + s[1..];
    }
  }

  lemma CutTwice(s: string, p: string, t: string, r: string)
    requires s == p + ":" + t && LastPart(t, r)
    ensures LastPart(s, r)
  {
    if t != r {
      var q: string :| t == q + ":" + r;
      assert s == (p + ":" + q) + ":" + r;
    }
  }

  lemma {:induction false} LastSegmentMeaning(s: string)
    ensures LastPart(s, LastSegment(s))
    decreases |s|
  {
    hide LastPart;
    if ':' in s {
      var p := AfterColonMeaning(s);
      var t := AfterColon(s);
      LastSegmentMeaning(t);
      CutTwice(s, p, t, LastSegment(t));
    } else {
      NoPrefix(s);
    }
  }

  predicate HasDoubleColon(s: string) {
    |s| > 1 && ((s[0] == ':' && s[1] == ':') || HasDoubleColon(s[1..]))
  }

  lemma {:induction false} DoubleColonMeaning(s: string)
    ensures HasDoubleColon(s) <==> exists a: string, b: string :: s == a + "::" + b
  {
    if |s| > 1 {
      DoubleColonMeaning(s[1..]);
      if s[0] == ':' && s[1] == ':' {
        assert s == "" + "::" + s[2..];
      } else if HasDoubleColon(s[1..]) {
        var a: string, b: string :| s[1..] == a + "::" + b;
        assert s == ([s[0]] + a) + "::" + b;
      }
      if a: string, b: string :| s == a + "::" + b {
        if a == [] {
          assert s[0] == ':' && s[1] == ':';
        } else {
          assert s[1..] == a[1..] + "::" + b;
        }
      }
    }
  }

  lemma SlashMeaning(s: string)
    ensures '/' in s <==> exists a: string, b: string :: s == a + "/" + b
  {
    if '/' in s {
      var i :| 0 <= i < |s| && s[i] == '/';
      assert s == s[..i] + "/" + s[i + 1..];
    }
  }

  /** A prefix is cut off, except from what looks like an IPv6 address or a port. */
  function CleanText(s: string): string {
    if HasDoubleColon(s) || '/' in s then s else LastSegment(s)
  }

  lemma CleanTextMeaning(s: string)
    ensures CleanedText(s, CleanText(s))
  {
    DoubleColonMeaning(s);
    SlashMeaning(s);
    LastSegmentMeaning(s);
  }

  function CleanScalar(x: Json): Json {
    if x.Str? then Str(CleanText(x.s)) else x
  }

  lemma CleanScalarMeaning(x: Json)
    ensures CleanedScalar(x, CleanScalar(x))
  {
    if x.Str? { CleanTextMeaning(x.s); }
  }

  /** CopyAndCleanTxValues. */
  method CopyAndCleanTxValues(x: Json) returns (c: Json)
    ensures CleanOf(x, c)
  {
    hide CleanScalar, CleanedScalar, LastPart;
    if !x.Obj? {
      CleanScalarMeaning(x);
      return CleanScalar(x);
    }
    var m: map<string, Json> := map[];
    var todo := x.fields.Keys;
    while todo != {}
      invariant todo <= x.fields.Keys
      invariant forall k, n | k in x.fields && k !in todo && LastPart(k, n) :: n in m
      invariant forall n | n in m ::
          exists k :: k in x.fields && LastPart(k, n) && CleanedScalar(x.fields[k], m[n])
      decreases todo
    {
      var k :| k in todo;
      todo := todo - {k};
      LastSegmentMeaning(k);
      CleanScalarMeaning(x.fields[k]);
      forall n | LastPart(k, n) ensures n == LastSegment(k) { OneLastPart(k, n, LastSegment(k)); }
      m := m[LastSegment(k) := CleanScalar(x.fields[k])];
    }
    c := Obj(m);
  }

  /** Addresses and ports are kept, alone and in a field; from any other text all up to the last
      colon is cut off. */
  lemma CleaningOfTexts(a: string, b: string, c: Json)
    ensures CleanOf(Str(a + "::" + b), c) ==> c == Str(a + "::" + b)
    ensures CleanOf(Str(a + "/" + b), c) ==> c == Str(a + "/" + b)
    ensures CleanOf(Str(a + ":" + b), c) && !Protected(a + ":" + b) && ':' !in b ==> c == Str(b)
    ensures CleanOf(Str(b), c) && ':' !in b ==> c == Str(b)
  {
    if CleanOf(Str(a + ":" + b), c) && !Protected(a + ":" + b) && ':' !in b {
      assert LastPart(a + ":" + b, b);
      OneLastPart(a + ":" + b, c.s, b);
    }
    if CleanOf(Str(b), c) && ':' !in b {
      NoPrefix(b);
      if !Protected(b) { OneLastPart(b, c.s, b); }
    }
  }

  /** A field is cleaned as the same value alone is, under the last part of its name. */
  lemma CleaningOfFields(k: string, n: string, v: Json, c: Json, d: Json)
    requires LastPart(k, n) && !v.Obj? && CleanOf(v, c) && CleanOf(Obj(map[k := v]), d)
    ensures d == Obj(map[n := c])
  {
    hide CleanedText, LastPart, CleanOf;
    FieldTo(Obj(map[k := v]), d, k, n);
    forall m | m in d.fields ensures m == n && d.fields[m] == c {
      var k' := FieldFrom(Obj(map[k := v]), d, m);
      OneLastPart(k, m, n);
      AloneIs(v, c);
      if v.Str? { OneCleanedText(v.s, c.s, d.fields[m].s); }
    }
    assert d.fields == map[n := c];
  }

  lemma AloneIs(v: Json, c: Json)
    requires !v.Obj? && CleanOf(v, c)
    ensures CleanedScalar(v, c)
  {
  }
}
