/** What the xpath parser returns for any text, and what is printed without keys. */
module XPathMeaning {
  import opened Gnmi
  import opened Text
  import opened XPath
  import opened XPathRoundTrip

  // ---------------------------------------------------------------- keys

  /** The map of the names and values, where the last value of a name stays. */
  ghost predicate LastWins(ks: seq<string>, vs: seq<string>, key: map<string, string>)
    requires |ks| == |vs|
  {
    && (forall k :: k in key <==> k in ks)
    && (forall i | 0 <= i < |ks| && (forall j | i < j < |ks| :: ks[j] != ks[i]) :: key[ks[i]] == vs[i])
  }

  /** A piece with exactly one equals sign. */
  predicate IsPair(piece: string, k: string, v: string) {
    piece == k + "=" + v && '=' !in k && '=' !in v
  }

  ghost predicate PiecesRead(pieces: seq<string>, ks: seq<string>, vs: seq<string>, key: map<string, string>) {
    && |ks| == |vs| == |pieces|
    && (forall i | 0 <= i < |pieces| :: IsPair(pieces[i], ks[i], vs[i]))
    && LastWins(ks, vs, key)
  }

  lemma PairSplit(piece: string, k: string, v: string)
    ensures IsPair(piece, k, v) <==> Split(piece, '=') == [k, v]
  {
    SplitMeaning(piece, '=', [k, v]);
    assert Join([k, v], '=') == k + "=" + v by { assert [k, v][1..] == [v]; }
    assert forall i | 0 <= i < 2 :: [k, v][i] == k || [k, v][i] == v;
    assert [k, v][0] == k && [k, v][1] == v;
  }

  lemma OneMorePair(ks: seq<string>, vs: seq<string>, key: map<string, string>, k: string, v: string)
    requires |ks| == |vs| && LastWins(ks, vs, key)
    ensures LastWins(ks + [k], vs + [v], key[k := v])
  {
    var ks', vs', key' := ks + [k], vs + [v], key[k := v];
    forall i | 0 <= i < |ks'| && (forall j | i < j < |ks'| :: ks'[j] != ks'[i]) ensures key'[ks'[i]] == vs'[i] {
      if i < |ks| {
        assert ks'[|ks|] == k && forall j | i < j < |ks| :: ks'[j] == ks[j];
      }
    }
    forall x ensures x in key' <==> x in ks' {}
  }

  lemma {:induction false} OneLastWins(ks: seq<string>, vs: seq<string>, a: map<string, string>, b: map<string, string>)
    requires |ks| == |vs| && LastWins(ks, vs, a) && LastWins(ks, vs, b)
    ensures a == b
  {
    forall k | k in a ensures k in b && a[k] == b[k] {
      var i :| 0 <= i < |ks| && ks[i] == k;
      var n := LastIndex(ks, k, |ks|);
      assert a[ks[n]] == vs[n] == b[ks[n]];
    }
    assert a.Keys == b.Keys;
  }

  lemma {:induction false} LastIndex(ks: seq<string>, k: string, upto: nat) returns (n: nat)
    requires upto <= |ks| && k in ks[..upto] && forall j | upto <= j < |ks| :: ks[j] != k
    ensures n < |ks| && ks[n] == k && forall j | n < j < |ks| :: ks[j] != ks[n]
  {
    if ks[upto - 1] == k {
      n := upto - 1;
    } else {
      n := LastIndex(ks, k, upto - 1);
    }
  }

  ghost predicate BadPiece(piece: string) {
    forall k, v :: !IsPair(piece, k, v)
  }

  lemma OneMorePiece(before: seq<string>, ks: seq<string>, vs: seq<string>, key: map<string, string>,
      last: string, k: string, v: string)
    requires PiecesRead(before, ks, vs, key) && IsPair(last, k, v)
    ensures PiecesRead(before + [last], ks + [k], vs + [v], key[k := v])
  {
    hide IsPair, LastWins;
    OneMorePair(ks, vs, key, k, v);
  }

  lemma PairOrBad(piece: string)
    ensures var kv := Split(piece, '='); if |kv| == 2 then IsPair(piece, kv[0], kv[1]) else BadPiece(piece)
  {
    hide IsPair;
    var kv := Split(piece, '=');
    forall k, v ensures IsPair(piece, k, v) <==> kv == [k, v] { PairSplit(piece, k, v); }
    hide Split;
    if |kv| == 2 { assert kv == [kv[0], kv[1]]; }
  }

  /** Keys are read exactly when every piece has one equals sign; the last value of a name stays. */
  lemma {:induction false} PairsMeaning(pieces: seq<string>) returns (ks: seq<string>, vs: seq<string>)
    ensures PairMap(pieces).Ok? ==> PiecesRead(pieces, ks, vs, PairMap(pieces).value)
    ensures PairMap(pieces).Err? ==> exists piece :: piece in pieces && BadPiece(piece)
    decreases |pieces|
  {
    hide PiecesRead, BadPiece, IsPair, Split;
    ks, vs := [], [];
    if pieces == [] {
      NoPieces();
    } else {
      var n := |pieces| - 1;
      var kv := Split(pieces[n], '=');
      assert pieces == pieces[..n] + [pieces[n]];
      PairOrBad(pieces[n]);
      ks, vs := PairsMeaning(pieces[..n]);
      if PairMap(pieces).Ok? {
        OneMorePiece(pieces[..n], ks, vs, PairMap(pieces[..n]).value, pieces[n], kv[0], kv[1]);
        ks, vs := ks + [kv[0]], vs + [kv[1]];
      }
    }
  }

  lemma NoPieces()
    ensures PiecesRead([], [], [], map[])
  {
  }

  /** `inner` is what is between the brackets; the closing one may be missing. */
  predicate Inner(rest: string, inner: string) {
    rest == inner + "]" || (rest == inner && (inner == [] || inner[|inner| - 1] != ']'))
  }

  /** The bracketed text of an element gives the keys. */
  ghost predicate KeysRead(rest: string, key: map<string, string>) {
    exists inner, pieces, ks, vs ::
      && Inner(rest, inner)
      && pieces != [] && inner == Join(pieces, ',') && (forall i | 0 <= i < |pieces| :: ',' !in pieces[i])
      && PiecesRead(pieces, ks, vs, key)
  }

  lemma InnerIsTrimmed(rest: string, inner: string)
    ensures Inner(rest, inner) <==> inner == TrimSuffix(TrimPrefix("[" + rest, '['), ']')
  {
    assert ("[" + rest)[1..] == rest;
    if rest != [] && rest[|rest| - 1] == ']' {
      assert rest == rest[..|rest| - 1] + "]";
      if rest == inner + "]" { assert inner == rest[..|rest| - 1]; }
    }
  }

  lemma PairsAreRead(pieces: seq<string>, ks: seq<string>, vs: seq<string>, key: map<string, string>)
    requires PiecesRead(pieces, ks, vs, key)
    ensures PairMap(pieces) == Ok(key)
  {
    var ks', vs' := PairsMeaning(pieces);
    forall piece | piece in pieces ensures !BadPiece(piece) {
      var i :| 0 <= i < |pieces| && pieces[i] == piece;
      assert IsPair(piece, ks[i], vs[i]);
    }
    forall i | 0 <= i < |pieces| ensures ks[i] == ks'[i] && vs[i] == vs'[i] {
      PairSplit(pieces[i], ks[i], vs[i]);
      PairSplit(pieces[i], ks'[i], vs'[i]);
      assert [ks[i], vs[i]][0] == ks[i] && [ks[i], vs[i]][1] == vs[i];
    }
    assert ks == ks' && vs == vs';
    OneLastWins(ks, vs, key, PairMap(pieces).value);
  }

  lemma KeysMeaning(rest: string, key: map<string, string>)
    ensures KeyValues("[" + rest) == Ok(key) <==> KeysRead(rest, key)
  {
    var inner := TrimSuffix(TrimPrefix("[" + rest, '['), ']');
    var pieces := Split(inner, ',');
    InnerIsTrimmed(rest, inner);
    SplitMeaning(inner, ',', pieces);
    hide Split, Join, TrimSuffix, TrimPrefix, PiecesRead, Inner, PairMap;
    if KeyValues("[" + rest) == Ok(key) {
      var ks, vs := PairsMeaning(pieces);
      assert PiecesRead(pieces, ks, vs, key);
    }
    if KeysRead(rest, key) {
      var inner', pieces', ks, vs :|
        && Inner(rest, inner')
        && pieces' != [] && inner' == Join(pieces', ',') && (forall i | 0 <= i < |pieces'| :: ',' !in pieces'[i])
        && PiecesRead(pieces', ks, vs, key);
      InnerIsTrimmed(rest, inner');
      SplitMeaning(inner', ',', pieces');
      PairsAreRead(pieces', ks, vs, key);
    }
  }

  // ---------------------------------------------------------------- elements and paths

  /** The text is an identifier, with or without keys in brackets. */
  ghost predicate ElemReads(t: string, e: PathElem) {
    && Identifier(e.name)
    && ((t == e.name && e.key == map[]) || exists rest: string :: t == e.name + "[" + rest && KeysRead(rest, e.key))
  }

  lemma NoBracket(s: string)
    requires Identifier(s)
    ensures '[' !in s
  {
  }

  /** An element is read exactly when it is an identifier, with or without well-formed keys. */
  lemma ElementMeaning(t: string, e: PathElem)
    ensures ParseElement(t) == Ok(e) <==> ElemReads(t, e)
  {
    hide ParseElement, ElemReads;
    if ParseElement(t) == Ok(e) { ReadsParsed(t, e); }
    if ElemReads(t, e) { ParsesRead(t, e); }
  }

  lemma ReadsParsed(t: string, e: PathElem)
    requires ParseElement(t) == Ok(e)
    ensures ElemReads(t, e)
  {
    hide KeyValues, KeysRead, Identifier;
    var i := IndexOf(t, '[');
    if i < |t| {
      var rest := t[i + 1..];
      assert t[i..] == "[" + rest && t == t[..i] + "[" + rest;
      KeysMeaning(rest, e.key);
    } else {
      assert t[..i] == t;
    }
  }

  lemma ParsesRead(t: string, e: PathElem)
    requires ElemReads(t, e)
    ensures ParseElement(t) == Ok(e)
  {
    hide KeyValues, KeysRead, Identifier, IndexOf, ParseElement;
    NoBracket(e.name);
    if t == e.name && e.key == map[] {
      ParsesName(t);
    } else {
      var rest: string :| t == e.name + "[" + rest && KeysRead(rest, e.key);
      KeysMeaning(rest, e.key);
      ParsesKeyed(e.name, rest, e.key);
    }
  }

  lemma ParsesName(t: string)
    requires Identifier(t) && '[' !in t
    ensures ParseElement(t) == Ok(PathElem(t, map[]))
  {
    hide Identifier, KeyValues;
    IndexOfNone(t, '[');
    assert t[..|t|] == t;
  }

  lemma ParsesKeyed(name: string, rest: string, key: map<string, string>)
    requires Identifier(name) && '[' !in name && KeyValues("[" + rest) == Ok(key)
    ensures ParseElement(name + "[" + rest) == Ok(PathElem(name, key))
  {
    hide Identifier, KeyValues, IndexOf;
    var t := name + "[" + rest;
    IndexOfFirst(name, rest, '[');
    assert t == name + ['['] + rest;
    assert t[..|name|] == name && t[|name|..] == "[" + rest;
  }

  lemma {:induction false} ElementsMeaning(parts: seq<string>, path: seq<PathElem>)
    ensures ParseElements(parts) == Ok(path) <==>
              |parts| == |path| && forall i | 0 <= i < |path| :: ElemReads(parts[i], path[i])
    decreases |parts|
  {
    hide ParseElement, ElemReads;
    if parts == [] {
    } else if path == [] {
      assert ParseElements(parts) != Ok([]);
    } else {
      var n, m := |parts| - 1, |path| - 1;
      ElementsMeaning(parts[..n], path[..m]);
      ElementMeaning(parts[n], path[m]);
      assert path == path[..m] + [path[m]];
      if ParseElements(parts) == Ok(path) {
        LastElem(ParseElements(parts[..n]).value, ParseElement(parts[n]).value, path);
      }
    }
  }

  lemma LastElem(a: seq<PathElem>, e: PathElem, path: seq<PathElem>)
    requires path == a + [e]
    ensures a == path[..|path| - 1] && e == path[|path| - 1]
  {
  }

  /** The parser, on every text: it returns a path exactly when the text can be cut at slashes into
      pieces with closed brackets of which those that are not empty are the elements of the path. */
  lemma ParserMeaning(s: string, path: seq<PathElem>)
    ensures ToGNMIPathSpec(s) == Ok(path) <==>
              exists parts: seq<string> ::
                && parts != [] && Join(parts, '/') == s && (forall i | 0 <= i < |parts| :: Whole(parts[i]))
                && |NonEmpty(parts)| == |path|
                && forall i | 0 <= i < |path| :: ElemReads(NonEmpty(parts)[i], path[i])
  {
    hide Whole, ElemReads, Segments, Open, ParseElements, Join, NonEmpty;
    SegmentsMeaning(s, Segments(s));
    ElementsMeaning(NonEmpty(Segments(s)), path);
    forall parts: seq<string>
      | parts != [] && Join(parts, '/') == s && forall i | 0 <= i < |parts| :: Whole(parts[i])
      ensures parts == Segments(s) && !Open(s)
    {
      SegmentsMeaning(s, parts);
    }
  }

  /** The non-empty pieces, in their order. */
  lemma {:induction false} NonEmptyMeaning(parts: seq<string>)
    ensures forall t :: t in NonEmpty(parts) <==> t in parts && t != ""
    ensures (forall t | t in parts :: t != "") ==> NonEmpty(parts) == parts
    decreases |parts|
  {
    if parts != [] {
      var before, last := parts[..|parts| - 1], parts[|parts| - 1];
      assert parts == before + [last];
      NonEmptyMeaning(before);
      assert forall t :: t in parts <==> t in before || t == last;
      if forall t | t in parts :: t != "" {
        assert last in parts && forall t | t in before :: t in parts;
        assert NonEmpty(before) == before;
      }
    }
  }

  // ---------------------------------------------------------------- printing without keys

  /** The path without its keys. */
  function Bare(path: seq<PathElem>): (r: seq<PathElem>)
    ensures |r| == |path| && forall i | 0 <= i < |path| :: r[i] == PathElem(path[i].name, map[])
  {
    seq(|path|, i requires 0 <= i < |path| => PathElem(path[i].name, map[]))
  }

  /** Printing without keys is printing the path without its keys. */
  lemma PrintedBare(path: seq<PathElem>, t: string)
    ensures Printed(path, false, t) <==> Printed(Bare(path), true, t)
  {
    hide Join, PlainName;
    if Printed(path, false, t) {
      var texts := TextsOf(path, false, t);
      assert forall i | 0 <= i < |path| :: PrintedElem(Bare(path)[i], true, texts[i]);
    }
    if Printed(Bare(path), true, t) {
      var texts := TextsOf(Bare(path), true, t);
      assert forall i | 0 <= i < |path| :: PrintedElem(Bare(path)[i], true, texts[i]);
      assert forall i | 0 <= i < |path| :: PrintedElem(path[i], false, texts[i]);
    }
  }

  /** Parsing a path printed without keys gives the path without its keys, whatever the keys are. */
  lemma BareRoundTrip(path: seq<PathElem>, t: string)
    requires (forall e | e in path :: Identifier(e.name)) && Printed(path, false, t)
    ensures ToGNMIPathSpec(t) == Ok(Bare(path))
  {
    hide Identifier, ToGNMIPathSpec, Printed;
    PrintedBare(path, t);
    forall e | e in Bare(path) ensures PlainElem(e) {
      var i :| 0 <= i < |path| && Bare(path)[i] == e;
      assert path[i] in path;
    }
    RoundTrip(Bare(path), t);
  }
}
