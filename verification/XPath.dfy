/** The printer and the parsers of xpath strings. */
module XPath {
  import opened Gnmi
  import opened Text
  import Lex

  // ---------------------------------------------------------------- printing

  /** The name without its module prefix: the text after the first colon, up to a second one. */
  function PlainName(name: string): string {
    var pes := Split(name, ':');
    if |pes| > 1 then pes[1] else pes[0]
  }

  /** A module prefix is cut off, and with it whatever follows a second colon. */
  lemma PrefixCutOff(prefix: string, name: string, rest: string)
    requires ':' !in prefix && ':' !in name
    ensures PlainName(name) == name
    ensures PlainName(prefix + ":" + name) == name
    ensures PlainName(prefix + ":" + name + ":" + rest) == name
  {
    hide Split;
    SplitNone(name, ':');
    SplitFirst(prefix, name, ':');
    SplitFirst(name, rest, ':');
    SplitFirst(prefix, name + ":" + rest, ':');
    assert prefix + ":" + name + ":" + rest == prefix + [':'] + (name + ":" + rest);
  }

  ghost predicate Descending(ks: seq<string>) {
    forall i, j | 0 <= i < j < |ks| :: Lex.StrLess(ks[j], ks[i])
  }

  function Pair(k: string, v: string): string {
    k + "=" + v
  }

  function Pairs(ks: seq<string>, key: map<string, string>): (r: seq<string>)
    requires forall k | k in ks :: k in key
    ensures |r| == |ks| && forall i | 0 <= i < |ks| :: r[i] == Pair(ks[i], key[ks[i]])
  {
    if ks == [] then [] else [Pair(ks[0], key[ks[0]])] + Pairs(ks[1..], key)
  }

  /** The key names in the order they are printed. */
  ghost predicate KeyOrder(ks: seq<string>, key: map<string, string>) {
    Descending(ks) && forall k :: k in ks <==> k in key
  }

  function KeyText(ks: seq<string>, key: map<string, string>): string
    requires forall k | k in ks :: k in key
  {
    "[" + Join(Pairs(ks, key), ',') + "]"
  }

  ghost predicate PrintedElem(e: PathElem, keys: bool, t: string) {
    if !keys || e.key == map[] then t == PlainName(e.name)
    else exists ks :: KeyOrder(ks, e.key) && t == PlainName(e.name) + KeyText(ks, e.key)
  }

  /** `t` is the printed form of the path. */
  ghost predicate Printed(path: seq<PathElem>, keys: bool, t: string) {
    exists texts: seq<string> ::
      && |texts| == |path|
      && (forall i | 0 <= i < |path| :: PrintedElem(path[i], keys, texts[i]))
      && t == "/" + Join(texts, '/')
  }

  lemma ReversedIsKeyOrder(up: seq<string>, ks: seq<string>, key: map<string, string>)
    requires Lex.Increasing(up) && forall k :: k in up <==> k in key
    requires |ks| == |up| && forall i | 0 <= i < |up| :: ks[i] == up[|up| - 1 - i]
    ensures KeyOrder(ks, key)
  {
    forall k ensures k in ks <==> k in key {
      if k in key {
        var i :| 0 <= i < |up| && up[i] == k;
        assert ks[|up| - 1 - i] == k;
      }
    }
  }

  method PrintKeys(key: map<string, string>) returns (t: string)
    ensures exists ks :: KeyOrder(ks, key) && t == KeyText(ks, key)
  {
    hide Join, Lex.StrLess, Lex.Increasing, KeyOrder, Pair, Pairs;
    var up := Lex.SortStrings(key.Keys);
    var ks := seq(|up|, i requires 0 <= i < |up| => up[|up| - 1 - i]);
    ReversedIsKeyOrder(up, ks, key);
    ghost var pairs := Pairs(ks, key);
    assert Join(pairs[..0], ',') == "" by { JoinNone(pairs, ','); }
    var body := "";
    var i := 0;
    while i < |ks|
      invariant 0 <= i <= |ks|
      invariant body == Join(pairs[..i], ',') + if 0 < i < |ks| then "," else ""
    {
      JoinNext(pairs, i, ',');
      body := body + Pair(ks[i], key[ks[i]]);
      if i != |ks| - 1 { body := body + ","; }
      i := i + 1;
    }
    assert pairs[..i] == pairs;
    t := "[" + body + "]";
    assert t == KeyText(ks, key);
  }

  /** GnmiPath2XPath. */
  method GnmiPath2XPath(path: seq<PathElem>, keys: bool) returns (t: string)
    ensures Printed(path, keys, t)
  {
    hide PlainName, KeyOrder, KeyText;
    var sb := "";
    ghost var texts: seq<string> := [];
    JoinNone(texts, '/');
    var i := 0;
    while i < |path|
      invariant 0 <= i <= |path| && |texts| == i
      invariant forall j | 0 <= j < i :: PrintedElem(path[j], keys, texts[j])
      invariant texts[..i] == texts && sb == Join(texts[..i], '/') + if 0 < i < |path| then "/" else ""
    {
      ghost var was := texts;
      var t := PlainName(path[i].name);
      if keys && path[i].key != map[] {
        var k := PrintKeys(path[i].key);
        t := t + k;
      }
      texts := texts + [t];
      JoinNext(texts, i, '/');
      assert texts[..i] == was && texts[..i + 1] == texts;
      sb := sb + t;
      if i + 1 != |path| { sb := sb + "/"; }
      i := i + 1;
    }
    t := "/" + sb;
  }

  // ---------------------------------------------------------------- splitting

  /** Whether a list key is open at the end of the text: after an unescaped `[` and before the
      next unescaped `]`. */
  function Open(s: string): bool
    decreases |s|
  {
    if s == [] then false
    else
      var before, c := s[..|s| - 1], s[|s| - 1];
      var escaped := before != [] && before[|before| - 1] == '\\';
      if c == '[' && !escaped then true
      else if c == ']' && !escaped then false
      else Open(before)
  }

  /** The pieces between the slashes outside of list keys, empty ones included. */
  function Segments(s: string): (r: seq<string>)
    ensures |r| >= 1
    decreases |s|
  {
    if s == [] then [""]
    else
      var before, c := s[..|s| - 1], s[|s| - 1];
      var r := Segments(before);
      if c == '/' && !Open(before) then r + [""] else r[..|r| - 1] + [r[|r| - 1] + [c]]
  }

  function NonEmpty(parts: seq<string>): seq<string> {
    if parts == [] then []
    else NonEmpty(parts[..|parts| - 1]) + if parts[|parts| - 1] == "" then [] else [parts[|parts| - 1]]
  }

  lemma NonEmptyMore(parts: seq<string>, last: string)
    ensures NonEmpty(parts + [last]) == NonEmpty(parts) + if last == "" then [] else [last]
  {
    assert (parts + [last])[..|parts|] == parts;
  }

  function SplitPathSpec(s: string): Result<seq<string>> {
    if Open(s) then Err else Ok(NonEmpty(Segments(s)))
  }

  /** One character more. */
  lemma SegmentsMore(before: string, c: char)
    ensures var escaped := before != [] && before[|before| - 1] == '\\';
            Open(before + [c]) ==
              if c == '[' && !escaped then true else if c == ']' && !escaped then false else Open(before)
    ensures var r := Segments(before);
            Segments(before + [c]) ==
              if c == '/' && !Open(before) then r + [""] else r[..|r| - 1] + [r[|r| - 1] + [c]]
  {
    assert (before + [c])[..|before|] == before;
  }

  lemma SegmentsNext(str: string, done: seq<string>, begin: nat, end: nat)
    requires begin <= end < |str| && Segments(str[..end]) == done + [str[begin..end]]
    ensures var c, escaped := str[end], end > 0 && str[end - 1] == '\\';
            Open(str[..end + 1]) ==
              if c == '[' && !escaped then true else if c == ']' && !escaped then false else Open(str[..end])
    ensures Segments(str[..end + 1]) ==
              if str[end] == '/' && !Open(str[..end]) then done + [str[begin..end], ""]
              else done + [str[begin..end + 1]]
  {
    hide Open, Segments;
    SegmentsMore(str[..end], str[end]);
    assert str[..end + 1] == str[..end] + [str[end]];
    assert str[begin..end + 1] == str[begin..end] + [str[end]];
    assert (done + [str[begin..end]])[..|done|] == done;
    assert done + [str[begin..end], ""] == done + [str[begin..end]] + [""];
  }

  lemma LastCut(a: seq<string>, x: string, b: seq<string>, y: string)
    requires a + [x] == b + [y]
    ensures a == b
  {
    assert (a + [x])[..|a|] == a && (b + [y])[..|b|] == b;
  }

  lemma StartSegments()
    ensures Segments("") == [""] && NonEmpty([]) == [] && !Open("")
  {
  }

  lemma EndSlash(s: string)
    ensures Open(s + "/") == Open(s)
    ensures !Open(s) ==> Segments(s + "/") == Segments(s) + [""]
  {
    SegmentsMore(s, '/');
  }

  /** splitPath. */
  method SplitPath(s: string) returns (r: Result<seq<string>>)
    ensures r == SplitPathSpec(s)
  {
    hide Open, Segments, NonEmpty;
    var str := s + "/";
    var path: seq<string> := [];
    var insideBrackets := false;
    var begin, end := 0, 0;
    ghost var done: seq<string> := [];
    StartSegments();
    assert str[..0] == "";
    while end < |str|
      invariant 0 <= begin <= end <= |str|
      invariant insideBrackets == Open(str[..end])
      invariant Segments(str[..end]) == done + [str[begin..end]]
      invariant path == NonEmpty(done)
    {
      SegmentsNext(str, done, begin, end);
      match str[end]
      case '/' =>
        if !insideBrackets {
          NonEmptyMore(done, str[begin..end]);
          assert done + [str[begin..end], ""] == (done + [str[begin..end]]) + [""];
          done := done + [str[begin..end]];
          if end > begin { path := path + [str[begin..end]]; }
          end := end + 1;
          begin := end;
          assert str[begin..end] == "";
        } else {
          end := end + 1;
        }
      case '[' =>
        if (end == 0 || str[end - 1] != '\\') && !insideBrackets { insideBrackets := true; }
        end := end + 1;
      case ']' =>
        if (end == 0 || str[end - 1] != '\\') && insideBrackets { insideBrackets := false; }
        end := end + 1;
      case _ =>
        end := end + 1;
    }
    assert str[..end] == str;
    EndSlash(s);
    if insideBrackets { return Err; }
    assert Segments(s) + [""] == done + [str[begin..end]];
    assert Segments(s) == done by { LastCut(Segments(s), "", done, str[begin..end]); }
    r := Ok(path);
  }

  // ---------------------------------------------------------------- parsing an element

  predicate Letter(c: char) {
    'a' <= c <= 'z' || 'A' <= c <= 'Z' || c == '_'
  }

  predicate IdChar(c: char) {
    Letter(c) || '0' <= c <= '9' || c == '-' || c == '.'
  }

  /** A YANG identifier, after section 6.2 of RFC 6020. */
  predicate Identifier(s: string) {
    s != [] && Letter(s[0]) && forall c | c in s :: IdChar(c)
  }

  /** The index of the first `c`, or the length. */
  function IndexOf(s: string, c: char): (i: nat)
    ensures i <= |s| && c !in s[..i] && (i < |s| ==> s[i] == c)
  {
    if s == [] || s[0] == c then 0
    else
      var i := IndexOf(s[1..], c);
      assert s[..1 + i] == [s[0]] + s[1..][..i];
      1 + i
  }

  function TrimPrefix(s: string, c: char): string {
    if s != [] && s[0] == c then s[1..] else s
  }

  function TrimSuffix(s: string, c: char): string {
    if s != [] && s[|s| - 1] == c then s[..|s| - 1] else s
  }

  /** The map of the `name=value` pieces, a later one taking precedence. */
  function PairMap(pieces: seq<string>): Result<map<string, string>> {
    if pieces == [] then Ok(map[])
    else
      var r := PairMap(pieces[..|pieces| - 1]);
      var kv := Split(pieces[|pieces| - 1], '=');
      if r.Ok? && |kv| == 2 then Ok(r.value[kv[0] := kv[1]]) else Err
  }

  function KeyValues(s: string): Result<map<string, string>> {
    PairMap(Split(TrimSuffix(TrimPrefix(s, '['), ']'), ','))
  }

  /** parseKeyValueString2. */
  method ParseKeyValueString2(s: string) returns (r: Result<map<string, string>>)
    ensures r == KeyValues(s)
  {
    var key: map<string, string> := map[];
    var split := Split(TrimSuffix(TrimPrefix(s, '['), ']'), ',');
    var i := 0;
    while i < |split|
      invariant 0 <= i <= |split| && PairMap(split[..i]) == Ok(key)
    {
      assert split[..i + 1][..i] == split[..i];
      var kv := Split(split[i], '=');
      if |kv| != 2 {
        BadPair(split, i);
        return Err;
      }
      key := key[kv[0] := kv[1]];
      i := i + 1;
    }
    assert split[..i] == split;
    r := Ok(key);
  }

  lemma PairMapMore(pieces: seq<string>, last: string)
    ensures PairMap(pieces + [last]) ==
              var r, kv := PairMap(pieces), Split(last, '=');
              if r.Ok? && |kv| == 2 then Ok(r.value[kv[0] := kv[1]]) else Err
  {
    assert (pieces + [last])[..|pieces|] == pieces;
  }

  lemma {:induction false} BadPair(pieces: seq<string>, i: nat)
    requires i < |pieces| && |Split(pieces[i], '=')| != 2
    ensures PairMap(pieces) == Err
    decreases |pieces|
  {
    if i < |pieces| - 1 { BadPair(pieces[..|pieces| - 1], i); }
  }

  /** parseElement: a name, and the keys if the element has any. */
  function ParseElement(s: string): Result<PathElem> {
    var i := IndexOf(s, '[');
    if !Identifier(s[..i]) then Err
    else if i == |s| then Ok(PathElem(s, map[]))
    else match KeyValues(s[i..])
      case Err => Err
      case Ok(key) => Ok(PathElem(s[..i], key))
  }

  /** All elements parsed, or an error if one cannot be parsed. */
  function ParseElements(parts: seq<string>): Result<seq<PathElem>> {
    if parts == [] then Ok([])
    else
      var r, e := ParseElements(parts[..|parts| - 1]), ParseElement(parts[|parts| - 1]);
      if r.Ok? && e.Ok? then Ok(r.value + [e.value]) else Err
  }

  function ToGNMIPathSpec(s: string): Result<seq<PathElem>> {
    match SplitPathSpec(s)
    case Err => Err
    case Ok(parts) => ParseElements(parts)
  }

  lemma ParseElementsMore(parts: seq<string>, last: string)
    ensures ParseElements(parts + [last]) ==
              var r, e := ParseElements(parts), ParseElement(last);
              if r.Ok? && e.Ok? then Ok(r.value + [e.value]) else Err
  {
    assert (parts + [last])[..|parts|] == parts;
  }

  lemma {:induction false} BadElement(parts: seq<string>, i: nat)
    requires i < |parts| && ParseElement(parts[i]).Err?
    ensures ParseElements(parts) == Err
    decreases |parts|
  {
    if i < |parts| - 1 { BadElement(parts[..|parts| - 1], i); }
  }

  /** One item of a parsed string path: a name, or the keys of the name before it. */
  datatype Part = Name(name: string) | Keys(key: map<string, string>)

  function PartsOf(path: seq<PathElem>): seq<Part> {
    if path == [] then []
    else PartsOf(path[..|path| - 1]) + PartsOfElem(path[|path| - 1])
  }

  function PartsOfElem(e: PathElem): seq<Part> {
    if e.key == map[] then [Name(e.name)] else [Name(e.name), Keys(e.key)]
  }

  method ParseElementParts(s: string) returns (r: Result<seq<Part>>)
    ensures r == match ParseElement(s) case Err => Err case Ok(e) => Ok(PartsOfElem(e))
  {
    var i := IndexOf(s, '[');
    if i == |s| {
      if !Identifier(s) { assert s[..i] == s; return Err; }
      assert s[..i] == s;
      return Ok([Name(s)]);
    }
    if !Identifier(s[..i]) { return Err; }
    assert s[i..] != [];
    var kv := ParseKeyValueString2(s[i..]);
    if kv.Err? { return Err; }
    KeysNotEmpty(Split(TrimSuffix(TrimPrefix(s[i..], '['), ']'), ','));
    r := Ok([Name(s[..i]), Keys(kv.value)]);
  }

  lemma KeysNotEmpty(pieces: seq<string>)
    requires pieces != []
    ensures PairMap(pieces) != Ok(map[])
  {
    var kv := Split(pieces[|pieces| - 1], '=');
    if PairMap(pieces).Ok? { assert kv[0] in PairMap(pieces).value; }
  }

  /** ParseStringPath. */
  method ParseStringPath(s: string) returns (r: Result<seq<Part>>)
    ensures r == match ToGNMIPathSpec(s) case Err => Err case Ok(p) => Ok(PartsOf(p))
  {
    var elems := SplitPath(s);
    if elems.Err? { return Err; }
    var path: seq<Part> := [];
    var i := 0;
    while i < |elems.value|
      invariant 0 <= i <= |elems.value|
      invariant ParseElements(elems.value[..i]).Ok? && path == PartsOf(ParseElements(elems.value[..i]).value)
    {
      assert elems.value[..i + 1][..i] == elems.value[..i];
      var parts := ParseElementParts(elems.value[i]);
      if parts.Err? {
        BadElement(elems.value, i);
        return Err;
      }
      ghost var q := ParseElements(elems.value[..i]).value;
      assert (q + [ParseElement(elems.value[i]).value])[..|q|] == q;
      path := path + parts.value;
      i := i + 1;
    }
    assert elems.value[..i] == elems.value;
    r := Ok(path);
  }

  /** The path elements of the parts: keys join the name before them. */
  function Assemble(parts: seq<Part>): Result<seq<PathElem>> {
    if parts == [] then Ok([])
    else
      var r := Assemble(parts[..|parts| - 1]);
      match parts[|parts| - 1]
      case Name(v) => if r.Err? then Err else Ok(r.value + [PathElem(v, map[])])
      case Keys(v) =>
        if r.Err? || r.value == [] || r.value[|r.value| - 1].key != map[] then Err
        else Ok(r.value[..|r.value| - 1] + [PathElem(r.value[|r.value| - 1].name, v)])
  }

  lemma {:induction false} AssembleErr(parts: seq<Part>, i: nat)
    requires i <= |parts| && Assemble(parts[..i]).Err?
    ensures Assemble(parts).Err?
    decreases |parts|
  {
    if i == |parts| {
      assert parts[..i] == parts;
    } else {
      assert parts[..|parts| - 1][..i] == parts[..i];
      AssembleErr(parts[..|parts| - 1], i);
    }
  }

  lemma AssembleElem(parts: seq<Part>, path: seq<PathElem>, e: PathElem)
    requires Assemble(parts) == Ok(path)
    ensures Assemble(parts + PartsOfElem(e)) == Ok(path + [e])
  {
    var named := parts + [Name(e.name)];
    assert named[..|parts|] == parts;
    if e.key == map[] {
      assert parts + PartsOfElem(e) == named;
    } else {
      assert parts + PartsOfElem(e) == named + [Keys(e.key)];
      assert (named + [Keys(e.key)])[..|named|] == named;
      var q := path + [PathElem(e.name, map[])];
      assert q[..|q| - 1] == path;
    }
  }

  /** Assembling undoes taking apart: neither of the two errors of ToGNMIPath's own loop occurs. */
  lemma {:induction false} AssembleParts(path: seq<PathElem>)
    ensures Assemble(PartsOf(path)) == Ok(path)
  {
    if path != [] {
      var init, e := path[..|path| - 1], path[|path| - 1];
      AssembleParts(init);
      assert path == init + [e];
      AssembleElem(PartsOf(init), init, e);
    }
  }

  /** ToGNMIPath. */
  method ToGNMIPath(s: string) returns (r: Result<seq<PathElem>>)
    ensures r == ToGNMIPathSpec(s)
  {
    var parts := ParseStringPath(s);
    if parts.Err? { return Err; }
    AssembleParts(ToGNMIPathSpec(s).value);
    r := AssembleElems(parts.value);
  }

  method AssembleElems(parts: seq<Part>) returns (r: Result<seq<PathElem>>)
    ensures r == Assemble(parts)
  {
    var path: seq<PathElem> := [];
    var i := 0;
    while i < |parts|
      invariant 0 <= i <= |parts| && Assemble(parts[..i]) == Ok(path)
    {
      assert parts[..i + 1][..i] == parts[..i];
      match parts[i] {
        case Name(v) =>
          path := path + [PathElem(v, map[])];
        case Keys(v) =>
          var n := |path|;
          if n == 0 || path[n - 1].key != map[] {
            AssembleErr(parts, i + 1);
            return Err;
          }
          path := path[..n - 1] + [PathElem(path[n - 1].name, v)];
      }
      i := i + 1;
    }
    assert parts[..i] == parts;
    r := Ok(path);
  }
}
