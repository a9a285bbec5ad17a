/** The older xpath parser, which cuts at every slash, and where it agrees with the newer one. */
module SimpleXPath {
  import opened Gnmi
  import opened Text
  import opened XPath
  import opened XPathRoundTrip
  import Lex

  // ---------------------------------------------------------------- the parser

  /** One `name=value` piece, blanks trimmed; `Err` where the code indexes out of range. */
  function SimplePair(piece: string): Result<(string, string)> {
    var s := Split(piece, '=');
    if |s| < 2 then Err
    else
      var v := if ']' in s[1] then Trim(s[1], ']') else s[1];
      Ok((Trim(s[0], ' '), Trim(v, ' ')))
  }

  function SimpleKeys(pieces: seq<string>): Result<map<string, string>> {
    if pieces == [] then Ok(map[])
    else
      var r, p := SimpleKeys(pieces[..|pieces| - 1]), SimplePair(pieces[|pieces| - 1]);
      if r.Ok? && p.Ok? then Ok(r.value[p.value.0 := p.value.1]) else Err
  }

  function SimpleElem(element: string): Result<PathElem> {
    if '[' in element then
      var s1 := Split(element, '[');
      if |s1| < 2 then Err
      else match SimpleKeys(Split(s1[1], ','))
        case Err => Err
        case Ok(key) => Ok(PathElem(s1[0], key))
    else Ok(PathElem(Trim(element, ' '), map[]))
  }

  /** The path of the first `n` pieces: the first piece, those up to the offset and empty ones
      are left out. */
  function SimplePath(split: seq<string>, n: nat, offset: int): Result<seq<PathElem>>
    requires n <= |split|
  {
    if n == 0 then Ok([])
    else
      var r := SimplePath(split, n - 1, offset);
      if r.Err? || n == 1 || n - 1 <= offset || split[n - 1] == "" then r
      else match SimpleElem(split[n - 1])
        case Err => Err
        case Ok(e) => Ok(r.value + [e])
  }

  lemma {:induction false} ErrStays(split: seq<string>, n: nat, m: nat, offset: int)
    requires n <= m <= |split| && SimplePath(split, n, offset).Err?
    ensures SimplePath(split, m, offset).Err?
    decreases m
  {
    hide SimpleElem;
    if n < m { ErrStays(split, n, m - 1, offset); }
  }

  lemma {:induction false} KeyErrStays(pieces: seq<string>, i: nat)
    requires i < |pieces| && SimplePair(pieces[i]).Err?
    ensures SimpleKeys(pieces).Err?
    decreases |pieces|
  {
    if i < |pieces| - 1 { KeyErrStays(pieces[..|pieces| - 1], i); }
  }

  /** Xpath2GnmiPath; `Err` stands for its index out of range. */
  method Xpath2GnmiPath(xpath: string, offset: int) returns (r: Result<seq<PathElem>>)
    ensures var split := Split(xpath, '/'); r == SimplePath(split, |split|, offset)
  {
    var split := Split(xpath, '/');
    var path: seq<PathElem> := [];
    var i := 0;
    while i < |split|
      invariant 0 <= i <= |split| && SimplePath(split, i, offset) == Ok(path)
    {
      if i > 0 && i > offset && split[i] != "" {
        var e := ParseSimple(split[i]);
        if e.Err? {
          ErrStays(split, i + 1, |split|, offset);
          return Err;
        }
        path := path + [e.value];
      }
      i := i + 1;
    }
    r := Ok(path);
  }

  method ParseSimple(element: string) returns (r: Result<PathElem>)
    ensures r == SimpleElem(element)
  {
    if '[' !in element { return Ok(PathElem(Trim(element, ' '), map[])); }
    var s1 := Split(element, '[');
    if |s1| < 2 { return Err; }
    var s2 := Split(s1[1], ',');
    var key: map<string, string> := map[];
    var j := 0;
    while j < |s2|
      invariant 0 <= j <= |s2| && SimpleKeys(s2[..j]) == Ok(key)
    {
      assert s2[..j + 1][..j] == s2[..j];
      var p := SimplePair(s2[j]);
      if p.Err? {
        KeyErrStays(s2, j);
        return Err;
      }
      key := key[p.value.0 := p.value.1];
      j := j + 1;
    }
    assert s2[..j] == s2;
    r := Ok(PathElem(s1[0], key));
  }

  // ---------------------------------------------------------------- agreement

  /** Also no slashes and no brackets, and no blanks at either end. */
  predicate SimpleText(s: string) {
    && ',' !in s && '=' !in s && '/' !in s && '[' !in s && ']' !in s
    && (s != [] ==> s[0] != ' ' && s[|s| - 1] != ' ')
  }

  ghost predicate Simple(path: seq<PathElem>) {
    forall e | e in path :: forall k | k in e.key :: SimpleText(k) && SimpleText(e.key[k])
  }

  lemma TrimNothing(s: string, c: char)
    requires s != [] ==> s[0] != c && s[|s| - 1] != c
    ensures Trim(s, c) == s
  {
  }

  lemma TrimBracket(v: string)
    requires ']' !in v
    ensures Trim(v + "]", ']') == v
  {
    assert (v + "]")[..|v|] == v;
    if v != [] {
      assert v[0] in v && v[|v| - 1] in v;
      TrimNothing(v, ']');
    } else {
      assert (v + "]")[1..] == [];
    }
  }

  /** A printed pair, with or without the bracket that closes the last one. */
  lemma SimplePairOf(k: string, v: string)
    requires SimpleText(k) && SimpleText(v)
    ensures SimplePair(Pair(k, v)) == Ok((k, v)) && SimplePair(Pair(k, v) + "]") == Ok((k, v))
  {
    hide Trim, Split;
    SplitPair(k, v);
    SplitPair(k, v + "]");
    assert Pair(k, v) + "]" == Pair(k, v + "]");
    assert (v + "]")[|v|] == ']';
    TrimBracket(v);
    TrimNothing(k, ' ');
    TrimNothing(v, ' ');
  }

  function Restrict(key: map<string, string>, ks: seq<string>): map<string, string> {
    map k | k in key && k in ks :: key[k]
  }

  lemma {:induction false} SimpleKeysOf(pieces: seq<string>, ks: seq<string>, key: map<string, string>)
    requires |pieces| == |ks| && forall i | 0 <= i < |ks| ::
        ks[i] in key && SimplePair(pieces[i]) == Ok((ks[i], key[ks[i]]))
    ensures SimpleKeys(pieces) == Ok(Restrict(key, ks))
    decreases |ks|
  {
    hide SimplePair;
    if ks != [] {
      var n := |ks| - 1;
      SimpleKeysOf(pieces[..n], ks[..n], key);
      assert ks == ks[..n] + [ks[n]];
      assert pieces == pieces[..n] + [pieces[n]];
      assert Restrict(key, ks) == Restrict(key, ks[..n])[ks[n] := key[ks[n]]];
    } else {
      assert Restrict(key, ks) == map[];
    }
  }

  lemma {:induction false} NotInJoin(parts: seq<string>, sep: char, c: char)
    requires c != sep && forall i | 0 <= i < |parts| :: c !in parts[i]
    ensures c !in Join(parts, sep)
  {
    if |parts| > 1 { NotInJoin(parts[1..], sep, c); }
  }

  /** The text after the opening bracket, cut at its commas. */
  lemma SimpleBody(ks: seq<string>, key: map<string, string>)
    requires ks != [] && forall k | k in ks :: k in key && SimpleText(k) && SimpleText(key[k])
    ensures var b := Join(Pairs(ks, key), ',');
            && '/' !in b && '[' !in b
            && SimpleKeys(Split(b + "]", ',')) == Ok(Restrict(key, ks))
  {
    hide SimpleKeys, SimplePair, Pairs, Join, Split;
    var pairs, n := Pairs(ks, key), |ks| - 1;
    forall i | 0 <= i <= n
      ensures ',' !in pairs[i] && '/' !in pairs[i] && '[' !in pairs[i]
      ensures SimplePair(pairs[i]) == Ok((ks[i], key[ks[i]])) && SimplePair(pairs[i] + "]") == Ok((ks[i], key[ks[i]]))
    {
      assert ks[i] in ks;
      SimplePairOf(ks[i], key[ks[i]]);
    }
    NotInJoin(pairs, ',', '/');
    NotInJoin(pairs, ',', '[');
    var cut := pairs[..n] + [pairs[n] + "]"];
    assert pairs == pairs[..n] + [pairs[n]];
    JoinLonger(pairs[..n], pairs[n], ']', ',');
    SplitJoin(cut, ',');
    SimpleKeysOf(cut, ks, key);
  }

  lemma SimpleKeyedOf(name: string, ks: seq<string>, key: map<string, string>)
    requires Identifier(name) && key != map[] && KeyOrder(ks, key)
    requires forall k | k in key :: SimpleText(k) && SimpleText(key[k])
    ensures var t := name + KeyText(ks, key); '/' !in t && SimpleElem(t) == Ok(PathElem(name, key))
  {
    hide SimpleText, Lex.StrLess, SimpleKeys, Split, Join, Pairs;
    PlainNameOf(name);
    var k0 :| k0 in key;
    assert k0 in ks;
    SimpleBody(ks, key);
    var b := Join(Pairs(ks, key), ',');
    assert name + KeyText(ks, key) == name + ['['] + (b + "]");
    SplitFirst(name, b + "]", '[');
    SplitNone(b + "]", '[');
    assert Restrict(key, ks) == key;
  }

  lemma SimpleElemOf(e: PathElem, t: string)
    requires PlainElem(e) && PrintedElem(e, true, t)
    requires forall k | k in e.key :: SimpleText(k) && SimpleText(e.key[k])
    ensures t != "" && '/' !in t && SimpleElem(t) == Ok(e)
  {
    hide SimpleText, Lex.StrLess, SimpleKeys, Split, KeyText;
    PlainNameOf(e.name);
    if e.key == map[] {
      assert t[0] in t && t[|t| - 1] in t;
      TrimNothing(t, ' ');
    } else {
      var ks :| KeyOrder(ks, e.key) && t == PlainName(e.name) + KeyText(ks, e.key);
      SimpleKeyedOf(e.name, ks, e.key);
      assert e == PathElem(e.name, e.key);
    }
  }

  /** How many elements of a path of this length the offset leaves out. */
  function Skipped(offset: int, length: nat): (n: nat)
    ensures n <= length
  {
    if offset < 0 then 0 else if offset > length then length else offset
  }

  lemma {:induction false} SimplePathOf(path: seq<PathElem>, texts: seq<string>, n: nat, offset: int)
    requires |path| == |texts| && n <= |path|
    requires forall i | 0 <= i < |path| :: texts[i] != "" && SimpleElem(texts[i]) == Ok(path[i])
    ensures SimplePath([""] + texts, n + 1, offset) == Ok(path[Skipped(offset, n)..n])
  {
    hide SimpleElem;
    var split := [""] + texts;
    if n == 0 {
      assert SimplePath(split, 0, offset) == Ok([]);
    } else {
      SimplePathOf(path, texts, n - 1, offset);
      assert split[n] == texts[n - 1];
      var k := Skipped(offset, n - 1);
      if offset < n {
        assert path[k..n] == path[k..n - 1] + [path[n - 1]];
      } else {
        assert path[n..n] == path[n - 1..n - 1];
      }
    }
  }

  /** On printed paths whose keys have no slashes, brackets or blanks at the ends, the two parsers
      return the same path, the one that was printed. */
  lemma ParsersAgree(path: seq<PathElem>, t: string)
    requires Plain(path) && Simple(path) && Printed(path, true, t)
    ensures var split := Split(t, '/'); SimplePath(split, |split|, 0) == ToGNMIPathSpec(t) == Ok(path)
  {
    RoundTrip(path, t);
    OffsetSkips(path, t, 0);
    hide SimplePath, ToGNMIPathSpec, Split;
    assert path[0..] == path;
  }

  /** With an offset the older parser leaves out that many elements at the beginning. */
  lemma OffsetSkips(path: seq<PathElem>, t: string, offset: int)
    requires Plain(path) && Simple(path) && Printed(path, true, t)
    ensures var split := Split(t, '/'); SimplePath(split, |split|, offset) == Ok(path[Skipped(offset, |path|)..])
  {
    hide PrintedElem, PlainElem, SimpleText, SimpleElem;
    var texts := TextsOf(path, true, t);
    forall i | 0 <= i < |path| ensures texts[i] != "" && '/' !in texts[i] && SimpleElem(texts[i]) == Ok(path[i]) {
      assert path[i] in path;
      SimpleElemOf(path[i], texts[i]);
    }
    SimplePathOf(path, texts, |path|, offset);
    assert path[Skipped(offset, |path|)..|path|] == path[Skipped(offset, |path|)..];
    assert t == [] + ['/'] + Join(texts, '/');
    SplitFirst([], Join(texts, '/'), '/');
    if texts == [] {
      assert Split(t, '/') == ["", ""];
      assert SimplePath(["", ""], 1, offset) == Ok([]);
    } else {
      SplitJoin(texts, '/');
      assert Split(t, '/') == [""] + texts;
    }
  }
}
