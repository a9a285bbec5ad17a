/** Parsing a printed path gives the path back. */
module XPathRoundTrip {
  import opened Gnmi
  import opened Text
  import opened XPath
  import Lex

  // ---------------------------------------------------------------- what may be printed

  /** No unescaped closing bracket. */
  predicate Sealed(s: string) {
    forall i | 0 <= i < |s| && s[i] == ']' :: i > 0 && s[i - 1] == '\\'
  }

  predicate EndsInBackslash(s: string) {
    s != [] && s[|s| - 1] == '\\'
  }

  predicate PlainText(s: string) {
    ',' !in s && '=' !in s && Sealed(s)
  }

  /** Names are identifiers; key names and values have no separators; no value ends in a backslash. */
  ghost predicate Plain(path: seq<PathElem>) {
    forall e | e in path :: PlainElem(e)
  }

  ghost predicate PlainElem(e: PathElem) {
    && Identifier(e.name)
    && forall k | k in e.key :: PlainText(k) && PlainText(e.key[k]) && !EndsInBackslash(e.key[k])
  }

  // ---------------------------------------------------------------- segments

  /** No slash outside of list keys. */
  predicate NoCut(t: string) {
    forall i | 0 <= i < |t| && t[i] == '/' :: Open(t[..i])
  }

  /** A piece that can stand between slashes: its list keys are closed, and no slash cuts it. */
  predicate Whole(t: string) {
    !Open(t) && NoCut(t)
  }

  lemma {:induction false} NoCutIsOne(t: string)
    requires NoCut(t)
    ensures Segments(t) == [t]
    decreases |t|
  {
    hide Segments, Open;
    StartSegments();
    if t != [] {
      var before := t[..|t| - 1];
      forall i | 0 <= i < |before| && before[i] == '/' ensures Open(before[..i]) { assert before[..i] == t[..i]; }
      NoCutIsOne(before);
      assert before + [t[|t| - 1]] == t && t[..|before|] == before;
      SegmentsMore(before, t[|t| - 1]);
    }
  }

  lemma LastOfBoth(r: seq<string>, q: seq<string>)
    requires q != []
    ensures (r + q)[..|r + q| - 1] == r + q[..|q| - 1] && (r + q)[|r + q| - 1] == q[|q| - 1]
  {
  }

  /** Scanning starts afresh after a slash outside of list keys. */
  lemma {:induction false} AfterCut(a: string, t: string)
    requires !Open(a)
    ensures Open(a + "/" + t) == Open(t)
    ensures Segments(a + "/" + t) == Segments(a) + Segments(t)
    decreases |t|
  {
    hide Segments, Open;
    StartSegments();
    if t == [] {
      assert a + "/" + t == a + "/";
      EndSlash(a);
    } else {
      var before, c := t[..|t| - 1], t[|t| - 1];
      AfterCut(a, before);
      assert t == before + [c] && a + "/" + t == a + "/" + before + [c];
      SegmentsMore(before, c);
      SegmentsMore(a + "/" + before, c);
      LastOfBoth(Segments(a), Segments(before));
    }
  }

  lemma {:induction false} SegmentsOfJoin(texts: seq<string>)
    requires texts != [] && forall i | 0 <= i < |texts| :: Whole(texts[i])
    ensures Segments(Join(texts, '/')) == texts && !Open(Join(texts, '/'))
  {
    hide Segments, Open;
    NoCutIsOne(texts[0]);
    if |texts| > 1 {
      SegmentsOfJoin(texts[1..]);
      AfterCut(texts[0], Join(texts[1..], '/'));
      assert texts == [texts[0]] + texts[1..];
    }
  }

  /** Joining the pieces gives the text back; every piece but the last is whole. */
  lemma {:induction false} SegmentsJoin(s: string)
    ensures var r := Segments(s);
            && Join(r, '/') == s
            && (forall i | 0 <= i < |r| - 1 :: Whole(r[i]))
            && NoCut(r[|r| - 1]) && Open(r[|r| - 1]) == Open(s)
    decreases |s|
  {
    hide Segments, Open, Join;
    StartSegments();
    JoinOne("", '/');
    if s != [] {
      var before, c := s[..|s| - 1], s[|s| - 1];
      SegmentsMore(before, c);
      SegmentsJoin(before);
      var r := Segments(before);
      var init, last := r[..|r| - 1], r[|r| - 1];
      assert r == init + [last] && s == before + [c];
      if c == '/' && !Open(before) {
        JoinMore(r, "", '/');
        EndSlash(before);
      } else {
        var longer := last + [c];
        JoinLonger(init, last, c, '/');
        LastSegment(before, last, c);
        SegmentsMore(last, c);
        forall i | 0 <= i < |longer| && longer[i] == '/' ensures Open(longer[..i]) {
          assert longer[..i] == last[..i];
          if i == |last| { assert last[..i] == last; }
        }
        assert Segments(s) == init + [longer];
      }
    }
  }

  /** The last piece is scanned as the whole text is. */
  lemma {:induction false} LastSegment(s: string, last: string, c: char)
    requires Segments(s)[|Segments(s)| - 1] == last && Open(last) == Open(s)
    ensures c != '/' || Open(s) ==> Open(last + [c]) == Open(s + [c])
  {
    hide Segments, Open;
    StartSegments();
    LastIsSuffix(s);
    SegmentsMore(s, c);
    SegmentsMore(last, c);
  }

  lemma {:induction false} LastIsSuffix(s: string)
    ensures var last := Segments(s)[|Segments(s)| - 1];
            && |last| <= |s| && last == s[|s| - |last|..]
            && (|last| < |s| ==> s[|s| - |last| - 1] == '/')
    decreases |s|
  {
    hide Segments, Open;
    StartSegments();
    if s != [] {
      var before := s[..|s| - 1];
      LastIsSuffix(before);
      SegmentsMore(before, s[|s| - 1]);
      assert before + [s[|s| - 1]] == s;
    }
  }

  /** The pieces are the one way to cut the text into whole pieces that joined by slashes give it
      back, and there is a way unless a list key stays open. */
  lemma {:induction false} SegmentsMeaning(s: string, parts: seq<string>)
    ensures parts == Segments(s) && !Open(s) <==>
            parts != [] && Join(parts, '/') == s && forall i | 0 <= i < |parts| :: Whole(parts[i])
  {
    if parts == Segments(s) && !Open(s) {
      SegmentsJoin(s);
    } else if parts != [] && Join(parts, '/') == s && forall i | 0 <= i < |parts| :: Whole(parts[i]) {
      SegmentsOfJoin(parts);
    }
  }

  // ---------------------------------------------------------------- one printed element

  lemma PlainNameOf(name: string)
    requires Identifier(name)
    ensures PlainName(name) == name
    ensures '[' !in name && '/' !in name && ' ' !in name && '\\' !in name && ']' !in name
  {
    SplitNone(name, ':');
  }

  lemma {:induction false} NoBracketNotOpen(s: string)
    requires '[' !in s
    ensures !Open(s)
    decreases |s|
  {
    if s != [] { NoBracketNotOpen(s[..|s| - 1]); }
  }

  /** Inside a list key. */
  lemma {:induction false} OpenInside(name: string, b: string)
    requires Identifier(name) && Sealed(b)
    ensures Open(name + "[" + b)
    decreases |b|
  {
    var s := name + "[" + b;
    PlainNameOf(name);
    if b == [] {
      assert s[..|s| - 1] == name && name[|name| - 1] in name;
    } else {
      var before := b[..|b| - 1];
      OpenInside(name, before);
      assert s[..|s| - 1] == name + "[" + before;
    }
  }

  lemma {:induction false} KeyedWhole(name: string, b: string)
    requires Identifier(name) && Sealed(b)
    ensures var t := name + "[" + b + "]"; NoCut(t) && (Open(t) <==> EndsInBackslash(b))
  {
    hide Identifier, Sealed, Open;
    var t := name + "[" + b + "]";
    OpenInside(name, b);
    SegmentsMore(name + "[" + b, ']');
    forall i | 0 <= i < |t| && t[i] == '/' ensures Open(t[..i]) { SlashInside(name, b, i); }
  }

  lemma SlashInside(name: string, b: string, i: nat)
    requires Identifier(name) && Sealed(b)
    requires var t := name + "[" + b + "]"; i < |t| && t[i] == '/'
    ensures Open((name + "[" + b + "]")[..i])
  {
    hide Open, Identifier;
    var t := name + "[" + b + "]";
    PlainNameOf(name);
    assert forall j | 0 <= j < |name| :: t[j] == name[j] && name[j] in name;
    var b' := b[..i - |name| - 1];
    OpenInside(name, b');
    assert t[..i] == name + "[" + b';
  }

  lemma SealedConcat(a: string, c: char, b: string)
    requires Sealed(a) && Sealed(b) && c != ']'
    ensures Sealed(a + [c] + b)
  {
    var s := a + [c] + b;
    forall i | 0 <= i < |s| && s[i] == ']' ensures i > 0 && s[i - 1] == '\\' {
      if i > |a| { assert b[i - |a| - 1] == ']'; }
    }
  }

  /** The text between the brackets. */
  lemma {:induction false} BodyPlain(ks: seq<string>, key: map<string, string>)
    requires ks != [] && forall k | k in ks :: k in key
    requires forall k | k in ks :: PlainText(k) && PlainText(key[k]) && !EndsInBackslash(key[k])
    ensures var b := Join(Pairs(ks, key), ','); b != [] && Sealed(b) && !EndsInBackslash(b)
  {
    var k := ks[0];
    assert k in ks;
    SealedConcat(k, '=', key[k]);
    assert Pair(k, key[k]) == k + ['='] + key[k];
    var pairs := Pairs(ks, key);
    assert pairs[1..] == Pairs(ks[1..], key);
    if |ks| > 1 {
      assert forall x | x in ks[1..] :: x in ks;
      BodyPlain(ks[1..], key);
      SealedConcat(pairs[0], ',', Join(pairs[1..], ','));
    }
  }

  lemma {:induction false} IndexOfFirst(a: string, b: string, c: char)
    requires c !in a
    ensures IndexOf(a + [c] + b, c) == |a|
  {
    if a != [] {
      IndexOfFirst(a[1..], b, c);
      assert (a + [c] + b)[1..] == a[1..] + [c] + b;
    }
  }

  lemma IndexOfNone(s: string, c: char)
    requires c !in s
    ensures IndexOf(s, c) == |s|
  {
  }

  lemma SplitPair(k: string, v: string)
    requires '=' !in k && '=' !in v
    ensures Split(Pair(k, v), '=') == [k, v]
  {
    SplitFirst(k, v, '=');
    SplitNone(v, '=');
    assert Pair(k, v) == k + ['='] + v;
  }

  lemma PairsMore(ks: seq<string>, k: string, key: map<string, string>)
    requires k in key && forall x | x in ks :: x in key
    ensures Pairs(ks + [k], key) == Pairs(ks, key) + [Pair(k, key[k])]
  {
    hide Pairs, Pair;
    var a, b := Pairs(ks + [k], key), Pairs(ks, key) + [Pair(k, key[k])];
    assert forall i | 0 <= i < |a| :: a[i] == b[i];
  }

  lemma NoPairs()
    ensures PairMap([]) == Ok(map[]) && Pairs([], map[]) == []
  {
  }

  lemma {:induction false} PairMapOfPairs(ks: seq<string>, key: map<string, string>)
    requires forall k | k in ks :: k in key && '=' !in k && '=' !in key[k]
    ensures PairMap(Pairs(ks, key)) == Ok(map k | k in ks :: key[k])
  {
    hide PairMap, Split, Pair, Pairs;
    NoPairs();
    if ks != [] {
      var init, k := ks[..|ks| - 1], ks[|ks| - 1];
      assert k in ks && forall x | x in init :: x in ks;
      assert forall x | x in ks :: x in init || x == k;
      PairMapOfPairs(init, key);
      SplitPair(k, key[k]);
      PairsMore(init, k, key);
      assert init + [k] == ks;
      PairMapMore(Pairs(init, key), Pair(k, key[k]));
      assert (map x | x in ks :: key[x]) == (map x | x in init :: key[x])[k := key[k]];
    }
  }

  lemma BracketsTrimmed(b: string)
    ensures KeyValues("[" + b + "]") == PairMap(Split(b, ','))
  {
    assert TrimPrefix("[" + b + "]", '[') == b + "]" && (b + "]")[..|b|] == b;
  }

  lemma KeysParsed(ks: seq<string>, key: map<string, string>)
    requires key != map[] && KeyOrder(ks, key)
    requires forall k | k in key :: PlainText(k) && PlainText(key[k])
    ensures ks != [] && KeyValues(KeyText(ks, key)) == Ok(key)
  {
    hide KeyValues, PairMap, Split, Join, Sealed, Lex.StrLess;
    var k0 :| k0 in key;
    assert k0 in ks;
    BracketsTrimmed(Join(Pairs(ks, key), ','));
    forall i | 0 <= i < |ks| ensures ',' !in Pairs(ks, key)[i] { assert ks[i] in ks; }
    SplitJoin(Pairs(ks, key), ',');
    assert forall k | k in ks :: k in key && '=' !in k && '=' !in key[k];
    PairMapOfPairs(ks, key);
    assert (map k | k in ks :: key[k]) == key;
  }

  lemma KeyedParsed(name: string, ks: seq<string>, key: map<string, string>)
    requires PlainElem(PathElem(name, key)) && key != map[] && KeyOrder(ks, key)
    ensures var t := name + KeyText(ks, key); Whole(t) && ParseElement(t) == Ok(PathElem(name, key))
  {
    hide Sealed, Segments, KeyValues, KeyOrder, Pairs, Join;
    assert forall k :: k in ks <==> k in key by { InOrder(ks, key); }
    KeysParsed(ks, key);
    PlainNameOf(name);
    BodyPlain(ks, key);
    var b := Join(Pairs(ks, key), ',');
    var t := name + KeyText(ks, key);
    assert t == name + "[" + b + "]";
    KeyedWhole(name, b);
    assert t == name + ['['] + (b + "]");
    IndexOfFirst(name, b + "]", '[');
    assert t[..|name|] == name && t[|name|..] == KeyText(ks, key);
  }

  lemma InOrder(ks: seq<string>, key: map<string, string>)
    requires KeyOrder(ks, key)
    ensures forall k :: k in ks <==> k in key
  {
  }

  lemma ElemParsed(e: PathElem, t: string)
    requires PlainElem(e) && PrintedElem(e, true, t)
    ensures t != "" && Whole(t) && ParseElement(t) == Ok(e)
  {
    hide KeyText, Open, Lex.StrLess;
    PlainNameOf(e.name);
    if e.key == map[] {
      NoBracketNotOpen(t);
      IndexOfNone(t, '[');
      assert t[..|t|] == t;
    } else {
      var ks :| KeyOrder(ks, e.key) && t == PlainName(e.name) + KeyText(ks, e.key);
      KeyedParsed(e.name, ks, e.key);
      assert e == PathElem(e.name, e.key);
    }
  }

  // ---------------------------------------------------------------- whole paths

  lemma {:induction false} ElemsParsed(path: seq<PathElem>, texts: seq<string>)
    requires |path| == |texts|
    requires forall i | 0 <= i < |path| :: texts[i] != "" && ParseElement(texts[i]) == Ok(path[i])
    ensures NonEmpty(texts) == texts && ParseElements(texts) == Ok(path)
  {
    hide ParseElement;
    if path != [] {
      var n := |path| - 1;
      ElemsParsed(path[..n], texts[..n]);
      assert texts == texts[..n] + [texts[n]] && path == path[..n] + [path[n]];
      ParseElementsMore(texts[..n], texts[n]);
      NonEmptyMore(texts[..n], texts[n]);
    }
  }

  /** Parsing a printed path gives the path back. */
  lemma {:induction false} RoundTrip(path: seq<PathElem>, t: string)
    requires Plain(path) && Printed(path, true, t)
    ensures ToGNMIPathSpec(t) == Ok(path)
  {
    hide PrintedElem, PlainElem, Segments, Open, ParseElement, Whole, NonEmpty, ParseElements;
    var texts := TextsOf(path, true, t);
    forall i | 0 <= i < |path| ensures texts[i] != "" && Whole(texts[i]) && ParseElement(texts[i]) == Ok(path[i]) {
      assert path[i] in path;
      ElemParsed(path[i], texts[i]);
    }
    ElemsParsed(path, texts);
    var parts := [""] + if texts == [] then [""] else texts;
    assert parts[1..] == if texts == [] then [""] else texts;
    assert t == Join(parts, '/');
    EmptyIsWhole();
    assert forall i | 0 <= i < |parts| :: parts[i] == "" || parts[i] in texts;
    SegmentsOfJoin(parts);
    EmptiesDropped(texts);
    assert [""] + [""] == ["", ""];
  }

  /** The texts a printed path is joined from. */
  ghost function TextsOf(path: seq<PathElem>, keys: bool, t: string): (texts: seq<string>)
    requires Printed(path, keys, t)
    ensures |texts| == |path|
    ensures forall i | 0 <= i < |path| :: PrintedElem(path[i], keys, texts[i])
    ensures t == "/" + Join(texts, '/')
  {
    var texts: seq<string> :| |texts| == |path|
      && (forall i | 0 <= i < |path| :: PrintedElem(path[i], keys, texts[i]))
      && t == "/" + Join(texts, '/');
    texts
  }

  lemma EmptyIsWhole()
    ensures Whole("")
  {
  }

  lemma {:induction false} EmptiesDropped(texts: seq<string>)
    ensures NonEmpty([""] + texts) == NonEmpty(texts)
    ensures NonEmpty(["", ""]) == []
    decreases |texts|
  {
    assert NonEmpty([""]) == [] by { NonEmptyMore([], ""); }
    NonEmptyMore([""], "");
    assert [""] + [""] == ["", ""];
    if texts == [] {
      assert [""] + texts == [""];
    } else {
      var n := |texts| - 1;
      EmptiesDropped(texts[..n]);
      NonEmptyMore([""] + texts[..n], texts[n]);
      NonEmptyMore(texts[..n], texts[n]);
      assert [""] + texts[..n] + [texts[n]] == [""] + texts && texts[..n] + [texts[n]] == texts;
    }
  }

  /** So printing is injective. */
  lemma PrintInjective(p: seq<PathElem>, q: seq<PathElem>, t: string)
    requires Plain(p) && Plain(q) && Printed(p, true, t) && Printed(q, true, t)
    ensures p == q
  {
    RoundTrip(p, t);
    RoundTrip(q, t);
  }

  /** Every path has a printed form. */
  lemma {:induction false} PrintExists(path: seq<PathElem>, keys: bool)
    ensures exists t :: Printed(path, keys, t)
  {
    hide PrintedElem;
    var texts := SomeTexts(path, keys);
    assert Printed(path, keys, "/" + Join(texts, '/'));
  }

  lemma {:induction false} SomeTexts(path: seq<PathElem>, keys: bool) returns (texts: seq<string>)
    ensures |texts| == |path| && forall i | 0 <= i < |path| :: PrintedElem(path[i], keys, texts[i])
  {
    hide PrintedElem;
    texts := [];
    if path != [] {
      var rest := SomeTexts(path[1..], keys);
      var t := SomeText(path[0], keys);
      texts := [t] + rest;
    }
  }

  lemma SomeText(e: PathElem, keys: bool) returns (t: string)
    ensures PrintedElem(e, keys, t)
  {
    hide Lex.StrLess, PlainName, Pairs;
    var up := Lex.Sorted(e.key.Keys);
    ReverseElems(up);
    ReversedIsKeyOrder(up, Reverse(up), e.key);
    t := PlainName(e.name);
    if keys && e.key != map[] { t := t + KeyText(Reverse(up), e.key); }
  }

  function Reverse(s: seq<string>): (r: seq<string>)
    ensures |r| == |s| && forall i | 0 <= i < |s| :: r[i] == s[|s| - 1 - i]
  {
    if s == [] then [] else Reverse(s[1..]) + [s[0]]
  }

  lemma ReverseElems(s: seq<string>)
    ensures forall x :: x in Reverse(s) <==> x in s
  {
    forall x | x in s ensures x in Reverse(s) {
      var i :| 0 <= i < |s| && s[i] == x;
      assert Reverse(s)[|s| - 1 - i] == x;
    }
  }

  lemma KeyOrderUnique(a: seq<string>, b: seq<string>, key: map<string, string>)
    requires KeyOrder(a, key) && KeyOrder(b, key)
    ensures a == b
  {
    ReverseElems(a);
    ReverseElems(b);
    Lex.IncreasingUnique(Reverse(a), Reverse(b));
    forall i | 0 <= i < |a| ensures |a| == |b| && a[i] == b[i] {
      assert Reverse(a)[|a| - 1 - i] == Reverse(b)[|a| - 1 - i];
    }
    assert |Reverse(a)| == |Reverse(b)|;
  }

  /** A path has one printed form, whatever order its keys are visited in. */
  lemma PrintUnique(path: seq<PathElem>, keys: bool, a: string, b: string)
    requires Printed(path, keys, a) && Printed(path, keys, b)
    ensures a == b
  {
    hide PrintedElem;
    var s, t := TextsOf(path, keys, a), TextsOf(path, keys, b);
    forall i | 0 <= i < |path| ensures s[i] == t[i] { ElemUnique(path[i], keys, s[i], t[i]); }
    assert s == t;
  }

  lemma ElemUnique(e: PathElem, keys: bool, a: string, b: string)
    requires PrintedElem(e, keys, a) && PrintedElem(e, keys, b)
    ensures a == b
  {
    if keys && e.key != map[] {
      var s :| KeyOrder(s, e.key) && a == PlainName(e.name) + KeyText(s, e.key);
      var t :| KeyOrder(t, e.key) && b == PlainName(e.name) + KeyText(t, e.key);
      KeyOrderUnique(s, t, e.key);
    }
  }
}
