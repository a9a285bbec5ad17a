/** What the older xpath parser returns for any element. */
module SimpleMeaning {
  import opened Gnmi
  import opened Text
  import opened SimpleXPath
  import opened XPathMeaning

  /** The text up to the first `c`, and from there up to the second one or the end. */
  ghost predicate FirstTwo(s: string, c: char, a: string, b: string) {
    && c !in a && c !in b
    && (s == a + [c] + b || exists rest: string :: s == a + [c] + b + [c] + rest)
  }

  lemma FirstTwoMeaning(s: string, c: char, a: string, b: string)
    ensures FirstTwo(s, c, a, b) <==> var r := Split(s, c); |r| > 1 && r[0] == a && r[1] == b
  {
    var r := Split(s, c);
    JoinSplit(s, c);
    hide Split, Join;
    if |r| > 1 && r[0] == a && r[1] == b {
      JoinTwo(r, c);
    }
    if FirstTwo(s, c, a, b) {
      SplitFirst(a, b, c);
      SplitNone(b, c);
      if s != a + [c] + b {
        var rest: string :| s == a + [c] + b + [c] + rest;
        SplitFirst(a, b + [c] + rest, c);
        SplitFirst(b, rest, c);
        assert s == a + [c] + (b + [c] + rest);
      }
    }
  }

  lemma JoinTwo(r: seq<string>, c: char)
    requires |r| > 1
    ensures Join(r, c) == if |r| == 2 then r[0] + [c] + r[1] else r[0] + [c] + r[1] + [c] + Join(r[2..], c)
  {
    assert r[1..][1..] == r[2..];
    assert r[1..][0] == r[1];
    if |r| > 2 { assert r[0] + [c] + (r[1] + [c] + Join(r[2..], c)) == r[0] + [c] + r[1] + [c] + Join(r[2..], c); }
  }

  /** A value loses the brackets at its ends if there are any, and then the blanks. */
  ghost predicate ValueRead(b: string, v: string) {
    if ']' in b then exists u :: Trimmed(b, ']', u) && Trimmed(u, ' ', v) else Trimmed(b, ' ', v)
  }

  ghost predicate PairRead(piece: string, k: string, v: string) {
    exists a, b :: FirstTwo(piece, '=', a, b) && Trimmed(a, ' ', k) && ValueRead(b, v)
  }

  lemma ValueMeaning(b: string, v: string)
    ensures ValueRead(b, v) <==> v == Trim(if ']' in b then Trim(b, ']') else b, ' ')
  {
    var u := if ']' in b then Trim(b, ']') else b;
    TrimMeaning(b, ']');
    TrimMeaning(u, ' ');
    hide Trim, Trimmed;
    if ValueRead(b, v) {
      if ']' in b {
        var w :| Trimmed(b, ']', w) && Trimmed(w, ' ', v);
        OneTrimmed(b, ']', w, u);
      }
      OneTrimmed(u, ' ', v, Trim(u, ' '));
    }
  }

  /** A piece is read exactly when it has an equals sign. */
  lemma PairMeaning(piece: string, k: string, v: string)
    ensures SimplePair(piece) == Ok((k, v)) <==> PairRead(piece, k, v)
  {
    var r := Split(piece, '=');
    hide Split, Trim, Trimmed, FirstTwo, ValueRead;
    if SimplePair(piece) == Ok((k, v)) {
      FirstTwoMeaning(piece, '=', r[0], r[1]);
      TrimMeaning(r[0], ' ');
      ValueMeaning(r[1], v);
    }
    if PairRead(piece, k, v) {
      var a, b :| FirstTwo(piece, '=', a, b) && Trimmed(a, ' ', k) && ValueRead(b, v);
      FirstTwoMeaning(piece, '=', a, b);
      TrimMeaning(a, ' ');
      OneTrimmed(a, ' ', k, Trim(a, ' '));
      ValueMeaning(b, v);
    }
  }

  ghost predicate PiecesRead(pieces: seq<string>, ks: seq<string>, vs: seq<string>, key: map<string, string>) {
    && |ks| == |vs| == |pieces|
    && (forall i | 0 <= i < |pieces| :: PairRead(pieces[i], ks[i], vs[i]))
    && LastWins(ks, vs, key)
  }

  lemma {:induction false} KeysAreRead(pieces: seq<string>, ks: seq<string>, vs: seq<string>, key: map<string, string>)
    requires PiecesRead(pieces, ks, vs, key)
    ensures SimpleKeys(pieces) == Ok(key)
    decreases |pieces|
  {
    if pieces == [] {
      assert key == map[];
    } else {
      hide PairRead, SimplePair, LastWins, PiecesRead;
      var n := |pieces| - 1;
      var before := ReadBefore(pieces, ks, vs, key);
      KeysAreRead(pieces[..n], ks[..n], vs[..n], before);
      PairMeaning(pieces[n], ks[n], vs[n]);
    }
  }

  lemma ReadBefore(pieces: seq<string>, ks: seq<string>, vs: seq<string>, key: map<string, string>)
    returns (before: map<string, string>)
    requires PiecesRead(pieces, ks, vs, key) && pieces != []
    ensures |ks| == |vs| == |pieces|
    ensures var n := |pieces| - 1;
            && PiecesRead(pieces[..n], ks[..n], vs[..n], before) && PairRead(pieces[n], ks[n], vs[n])
            && key == before[ks[n] := vs[n]]
  {
    hide PairRead, LastWins;
    var n := |pieces| - 1;
    before := LastWinsBefore(ks[..n], vs[..n]);
    assert forall i | 0 <= i < n :: PairRead(pieces[i], ks[i], vs[i]);
    OneMorePair(ks[..n], vs[..n], before, ks[n], vs[n]);
    assert ks[..n] + [ks[n]] == ks && vs[..n] + [vs[n]] == vs;
    OneLastWins(ks, vs, key, before[ks[n] := vs[n]]);
  }

  /** There is a map in which the last value of each name stays. */
  lemma {:induction false} LastWinsBefore(ks: seq<string>, vs: seq<string>) returns (key: map<string, string>)
    requires |ks| == |vs|
    ensures LastWins(ks, vs, key)
    decreases |ks|
  {
    if ks == [] {
      key := map[];
    } else {
      var n := |ks| - 1;
      var before := LastWinsBefore(ks[..n], vs[..n]);
      hide LastWins;
      OneMorePair(ks[..n], vs[..n], before, ks[n], vs[n]);
      assert ks[..n] + [ks[n]] == ks && vs[..n] + [vs[n]] == vs;
      key := before[ks[n] := vs[n]];
    }
  }

  lemma {:induction false} ReadKeys(pieces: seq<string>) returns (ks: seq<string>, vs: seq<string>)
    requires SimpleKeys(pieces).Ok?
    ensures PiecesRead(pieces, ks, vs, SimpleKeys(pieces).value)
    decreases |pieces|
  {
    hide PairRead, SimplePair, PiecesRead;
    ks, vs := [], [];
    if pieces == [] {
      NoPieces();
    } else {
      var n := |pieces| - 1;
      ks, vs := ReadKeys(pieces[..n]);
      var kv := SimplePair(pieces[n]).value;
      PairMeaning(pieces[n], kv.0, kv.1);
      OneMorePiece(pieces[..n], ks, vs, SimpleKeys(pieces[..n]).value, pieces[n], kv.0, kv.1);
      assert pieces[..n] + [pieces[n]] == pieces;
      ks, vs := ks + [kv.0], vs + [kv.1];
    }
  }

  lemma NoPieces()
    ensures PiecesRead([], [], [], map[])
  {
  }

  lemma OneMorePiece(before: seq<string>, ks: seq<string>, vs: seq<string>, key: map<string, string>,
      last: string, k: string, v: string)
    requires PiecesRead(before, ks, vs, key) && PairRead(last, k, v)
    ensures PiecesRead(before + [last], ks + [k], vs + [v], key[k := v])
  {
    hide PairRead, LastWins;
    OneMorePair(ks, vs, key, k, v);
  }

  /** Without a bracket the element is a name with the blanks at its ends trimmed; otherwise the keys
      are between the first bracket and the second one, or the end. */
  ghost predicate ElemRead(element: string, e: PathElem) {
    if '[' !in element then e.key == map[] && Trimmed(element, ' ', e.name)
    else exists body, pieces, ks, vs ::
           && FirstTwo(element, '[', e.name, body)
           && pieces != [] && body == Join(pieces, ',') && (forall i | 0 <= i < |pieces| :: ',' !in pieces[i])
           && PiecesRead(pieces, ks, vs, e.key)
  }

  /** An element is read exactly so, and in no other case: the code indexes out of range exactly
      where a piece of the keys has no equals sign. */
  lemma ElementMeaning(element: string, e: PathElem)
    ensures SimpleElem(element) == Ok(e) <==> ElemRead(element, e)
  {
    hide SimpleElem, ElemRead;
    if SimpleElem(element) == Ok(e) { ReadsSimple(element, e); }
    if ElemRead(element, e) { SimpleReads(element, e); }
  }

  lemma ReadsSimple(element: string, e: PathElem)
    requires SimpleElem(element) == Ok(e)
    ensures ElemRead(element, e)
  {
    hide Split, Join, Trim, Trimmed, FirstTwo, PiecesRead, SimpleKeys;
    if '[' !in element {
      TrimMeaning(element, ' ');
    } else {
      var s1 := Split(element, '[');
      var pieces := Split(s1[1], ',');
      FirstTwoMeaning(element, '[', s1[0], s1[1]);
      SplitMeaning(s1[1], ',', pieces);
      var ks, vs := ReadKeys(pieces);
    }
  }

  lemma SimpleReads(element: string, e: PathElem)
    requires ElemRead(element, e)
    ensures SimpleElem(element) == Ok(e)
  {
    hide Split, Join, Trim, Trimmed, FirstTwo, PiecesRead, SimpleKeys;
    if '[' !in element {
      TrimMeaning(element, ' ');
      OneTrimmed(element, ' ', e.name, Trim(element, ' '));
    } else {
      var body, pieces, ks, vs :|
        && FirstTwo(element, '[', e.name, body)
        && pieces != [] && body == Join(pieces, ',') && (forall i | 0 <= i < |pieces| :: ',' !in pieces[i])
        && PiecesRead(pieces, ks, vs, e.key);
      FirstTwoMeaning(element, '[', e.name, body);
      SplitMeaning(body, ',', pieces);
      KeysAreRead(pieces, ks, vs, e.key);
    }
  }
}
