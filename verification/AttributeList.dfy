/**
 The macro's own attribute: a comma-separated list of metas, split token by token.
 */
module AttributeLists {
  import opened Splitting
  import opened Tokens
  import opened Wrappers

  // ---------- One meta ----------

  datatype MetaPath = MetaPath(leading: bool, words: seq<Token>) {
    /** The identifier of a path that is just one. */
    function GetIdent(): Option<string> {
      if !leading && |words| == 1 && (words[0].Ident? || words[0].Keyword?) then Some(words[0].name) else None
    }
  }

  datatype Meta =
    | PathMeta(path: MetaPath)
    | ListMeta(path: MetaPath, delimiter: Delimiter, tokens: seq<Token>)
    | NameValueMeta(path: MetaPath, value: seq<Token>)

  function ParseWords(ts: seq<Token>): Option<(seq<Token>, seq<Token>)> {
    if ts == [] || !IsPathWord(ts[0]) then None
    else if |ts| > 1 && ts[1] == PathSep then
      match ParseWords(ts[2..])
      case None => None
      case Some((words, rest)) => Some(([ts[0]] + words, rest))
    else Some(([ts[0]], ts[1..]))
  }

  function ParseMeta(g: Grammar, ts: seq<Token>): Option<Meta> {
    var leading := Peek(ts, PathSep);
    var r := ParseWords(if leading then ts[1..] else ts);
    if r.None? then None else AfterPath(g, MetaPath(leading, r.value.0), r.value.1)
  }

  function AfterPath(g: Grammar, path: MetaPath, rest: seq<Token>): Option<Meta> {
    if rest == [] then Some(PathMeta(path))
    else if |rest| == 1 && rest[0].Group? then Some(ListMeta(path, rest[0].delimiter, rest[0].inner))
    else if |rest| > 1 && rest[0] == Punct('=') && g.isExpression(rest[1..]) then Some(NameValueMeta(path, rest[1..]))
    else None
  }

  function WordsTokens(words: seq<Token>): seq<Token>
    requires words != []
  {
    if |words| == 1 then [words[0]] else [words[0], PathSep] + WordsTokens(words[1..])
  }

  predicate ValidPath(p: MetaPath) {
    p.words != [] && forall i :: 0 <= i < |p.words| ==> IsPathWord(p.words[i])
  }

  function PathTokens(p: MetaPath): seq<Token>
    requires ValidPath(p)
  {
    (if p.leading then [PathSep] else []) + WordsTokens(p.words)
  }

  predicate ValidMeta(g: Grammar, m: Meta) {
    ValidPath(m.path) && (m.NameValueMeta? ==> m.value != [] && g.isExpression(m.value))
  }

  function MetaTokens(g: Grammar, m: Meta): (ts: seq<Token>)
    requires ValidMeta(g, m)
    ensures ts != []
  {
    PathTokens(m.path) + MetaRest(m)
  }

  lemma {:induction false} ParseWordsSound(ts: seq<Token>)
    requires ParseWords(ts).Some?
    ensures var (words, rest) := ParseWords(ts).value;
      && words != [] && (forall i :: 0 <= i < |words| ==> IsPathWord(words[i]))
      && ts == WordsTokens(words) + rest
    decreases |ts|
  {
    if |ts| > 1 && ts[1] == PathSep {
      ParseWordsSound(ts[2..]);
      var (words, rest) := ParseWords(ts[2..]).value;
      assert ([ts[0]] + words)[1..] == words;
      assert ts == [ts[0], ts[1]] + ts[2..];
    } else {
      assert ts == [ts[0]] + ts[1..];
    }
  }

  lemma {:induction false} ParseWordsComplete(words: seq<Token>, rest: seq<Token>)
    requires words != [] && forall i :: 0 <= i < |words| ==> IsPathWord(words[i])
    requires !Peek(rest, PathSep)
    ensures ParseWords(WordsTokens(words) + rest) == Some((words, rest))
    decreases |words|
  {
    var ts := WordsTokens(words) + rest;
    if |words| > 1 {
      ParseWordsComplete(words[1..], rest);
      assert ts[2..] == WordsTokens(words[1..]) + rest;
      assert words == [words[0]] + words[1..];
    } else {
      assert ts[1..] == rest && words == [words[0]];
    }
  }

  function MetaRest(m: Meta): seq<Token> {
    match m
    case PathMeta(_) => []
    case ListMeta(_, delimiter, tokens) => [Group(delimiter, tokens)]
    case NameValueMeta(_, value) => [Punct('=')] + value
  }

  lemma {:induction false} MetaSound(g: Grammar, ts: seq<Token>)
    requires ParseMeta(g, ts).Some?
    ensures ValidMeta(g, ParseMeta(g, ts).value) && ts == MetaTokens(g, ParseMeta(g, ts).value)
  {
    var m := ParseMeta(g, ts).value;
    if Peek(ts, PathSep) {
      BodySound(g, ts[1..], true, m);
      assert ts == [PathSep] + ts[1..];
    } else {
      BodySound(g, ts, false, m);
    }
  }

  lemma {:induction false} BodySound(g: Grammar, body: seq<Token>, leading: bool, m: Meta)
    requires ParseWords(body).Some?
    requires AfterPath(g, MetaPath(leading, ParseWords(body).value.0), ParseWords(body).value.1) == Some(m)
    ensures ValidMeta(g, m) && m.path.leading == leading
    ensures (if leading then [PathSep] + body else body) == MetaTokens(g, m)
  {
    ParseWordsSound(body);
    var words, rest := ParseWords(body).value.0, ParseWords(body).value.1;
    MetaRestSound(g, MetaPath(leading, words), rest, m);
    assert [PathSep] + (WordsTokens(words) + rest) == [PathSep] + WordsTokens(words) + rest;
    assert [] + WordsTokens(words) == WordsTokens(words);
  }

  lemma {:induction false} MetaRestSound(g: Grammar, path: MetaPath, rest: seq<Token>, m: Meta)
    requires AfterPath(g, path, rest) == Some(m)
    ensures m.path == path && rest == MetaRest(m) && (m.NameValueMeta? ==> m.value != [] && g.isExpression(m.value))
  {
  }

  lemma {:induction false} MetaComplete(g: Grammar, m: Meta)
    requires ValidMeta(g, m)
    ensures ParseMeta(g, MetaTokens(g, m)) == Some(m)
  {
    var ts, rest := MetaTokens(g, m), MetaRest(m);
    ParseWordsComplete(m.path.words, rest);
    var words := WordsTokens(m.path.words);
    assert IsPathWord(m.path.words[0]) && words[0] == m.path.words[0];
    if m.path.leading {
      assert ts == [PathSep] + (words + rest);
    } else {
      assert ts == words + rest;
    }
    if m.NameValueMeta? { assert rest[1..] == m.value; }
  }

  /** Parsing a meta is the exact inverse of printing one. */
  lemma {:induction false} MetaExact(g: Grammar, ts: seq<Token>, m: Meta)
    ensures ParseMeta(g, ts) == Some(m) <==> ValidMeta(g, m) && ts == MetaTokens(g, m)
  {
    if ParseMeta(g, ts) == Some(m) { MetaSound(g, ts); }
    if ValidMeta(g, m) && ts == MetaTokens(g, m) { MetaComplete(g, m); }
  }

  /** The words a path can be made of: identifiers and four keywords, no others. */
  lemma {:induction false} OneWordMeta(g: Grammar, t: Token)
    ensures ParseMeta(g, [t]).Some? <==> t.Ident? || (t.Keyword? && t.name in ["super", "self", "Self", "crate"])
  {
    assert t != PathSep ==> [t][1..] == [];
  }

  // ---------- Splitting at commas ----------

  /** A `Punctuated` list: the values, and how many commas have been pushed behind them. */
  datatype Punctuated = Punctuated(values: seq<Meta>, commas: nat)

  /** The metas between commas; nothing behind the last comma is not a meta. */
  function ParseMetas(g: Grammar, parts: seq<seq<Token>>): Option<seq<Meta>>
    requires |parts| > 0
  {
    if parts == [[]] then Some([])
    else
      var first := ParseMeta(g, parts[0]);
      if first.None? then None
      else if |parts| == 1 then Some([first.value])
      else PushFront(first.value, ParseMetas(g, parts[1..]))
  }

  function PushFront(m: Meta, rest: Option<seq<Meta>>): Option<seq<Meta>> {
    if rest.None? then None else Some([m] + rest.value)
  }

  function ParseList(g: Grammar, ts: seq<Token>): Option<Punctuated> {
    var parts := Split(ts, COMMA);
    var metas := ParseMetas(g, parts);
    if metas.None? then None else Some(Punctuated(metas.value, |parts| - 1))
  }

  /** The tokens before the first comma outside all groups. */
  method ParseUntil(input: ParseBuffer) returns (tokens: seq<Token>)
    modifies input
    ensures old(input.rest) == tokens + input.rest
    ensures COMMA !in tokens && (input.rest == [] || input.rest[0] == COMMA)
  {
    tokens := [];
    while input.rest != [] && !Peek(input.rest, COMMA)
      invariant old(input.rest) == tokens + input.rest
      invariant COMMA !in tokens
      decreases |input.rest|
    {
      var next := input.rest[0];
      assert input.rest == [next] + input.rest[1..];
      input.rest := input.rest[1..];
      tokens := tokens + [next];
    }
  }

  function Prepend(values: seq<Meta>, tail: Option<seq<Meta>>): Option<seq<Meta>> {
    if tail.None? then None else Some(values + tail.value)
  }

  lemma {:induction false} PrependStep(g: Grammar, values: seq<Meta>, first: seq<Token>, rest: seq<seq<Token>>)
    requires [first] + rest != [[]]
    ensures Prepend(values, ParseMetas(g, [first] + rest)) ==
      if ParseMeta(g, first).None? then None
      else Prepend(values + [ParseMeta(g, first).value], if rest == [] then Some([]) else ParseMetas(g, rest))
  {
    assert ([first] + rest)[1..] == rest;
    if ParseMeta(g, first).Some? && rest != [] && ParseMetas(g, rest).Some? {
      var m, metas := ParseMeta(g, first).value, ParseMetas(g, rest).value;
      assert values + ([m] + metas) == values + [m] + metas;
    }
    if ParseMeta(g, first).Some? && rest == [] {
      assert values + [ParseMeta(g, first).value] + [] == values + [ParseMeta(g, first).value];
    }
  }

  /** What one turn of the parser's loop does to the list still to come. */
  lemma {:induction false} TakeSegment(g: Grammar, values: seq<Meta>, next: seq<Token>, rest: seq<Token>)
    requires next + rest != [] && COMMA !in next && (rest == [] || rest[0] == COMMA)
    ensures Prepend(values, ParseMetas(g, Split(next + rest, COMMA))) ==
      if ParseMeta(g, next).None? then None
      else Prepend(values + [ParseMeta(g, next).value],
                   if rest == [] then Some([]) else ParseMetas(g, Split(rest[1..], COMMA)))
    ensures |Split(next + rest, COMMA)| == 1 + if rest == [] then 0 else |Split(rest[1..], COMMA)|
  {
    if rest == [] {
      SplitFirst(next, [], COMMA);
      assert next + rest == next && [next] + [] == [next];
      PrependStep(g, values, next, []);
    } else {
      SplitFirst(next, rest[1..], COMMA);
      assert next + rest == next + [COMMA] + rest[1..];
      PrependStep(g, values, next, Split(rest[1..], COMMA));
    }
  }

  /** The attribute parser: on success everything has been consumed. */
  method ParseAttribute(g: Grammar, input: ParseBuffer) returns (r: Option<Punctuated>)
    modifies input
    ensures r == ParseList(g, old(input.rest))
    ensures r.Some? ==> input.rest == []
  {
    var segments := Punctuated([], 0);
    ghost var parts := Split(input.rest, COMMA);
    assert ParseMetas(g, parts).Some? ==> [] + ParseMetas(g, parts).value == ParseMetas(g, parts).value;
    while input.rest != []
      invariant segments.commas == |segments.values|
      invariant ParseMetas(g, parts) == Prepend(segments.values, ParseMetas(g, Split(input.rest, COMMA)))
      invariant |parts| == segments.commas + |Split(input.rest, COMMA)|
      decreases |input.rest|
    {
      var next := ParseUntil(input);
      TakeSegment(g, segments.values, next, input.rest);
      var meta := ParseMeta(g, next);
      if meta.None? { return None; }
      assert segments.commas == |segments.values|;  // push_value needs an empty list or a trailing comma
      segments := segments.(values := segments.values + [meta.value]);
      var ok := input.ParseToken(COMMA);
      if ok {
        segments := segments.(commas := segments.commas + 1);
      } else {
        break;
      }
    }
    assert segments.values + [] == segments.values;
    r := Some(segments);
  }

  // ---------- Nothing is lost ----------

  predicate AllValid(g: Grammar, values: seq<Meta>) {
    values == [] || (ValidMeta(g, values[0]) && AllValid(g, values[1..]))
  }

  function MetaParts(g: Grammar, values: seq<Meta>): (parts: seq<seq<Token>>)
    requires AllValid(g, values)
    ensures |parts| == |values|
  {
    if values == [] then [] else [MetaTokens(g, values[0])] + MetaParts(g, values[1..])
  }

  lemma {:induction false} MetasExact(g: Grammar, parts: seq<seq<Token>>, values: seq<Meta>)
    requires |parts| > 0
    ensures ParseMetas(g, parts) == Some(values) <==>
      AllValid(g, values) && (parts == MetaParts(g, values) + [[]] || parts == MetaParts(g, values))
    decreases |parts|
  {
    if parts == [[]] {
      if values != [] && AllValid(g, values) { assert MetaParts(g, values)[0] != []; }
      assert values == [] ==> MetaParts(g, values) + [[]] == [[]];
    } else if values != [] {
      var first, rest := parts[0], parts[1..];
      assert parts == [first] + rest && values == [values[0]] + values[1..];
      MetaExact(g, first, values[0]);
      if rest != [] {
        MetasExact(g, rest, values[1..]);
        if AllValid(g, values) { PartsCons(g, values, rest); }
      } else if |values| == 1 {
        assert values[1..] == [] && AllValid(g, []) && parts == [first];
        if ValidMeta(g, values[0]) {
          assert MetaParts(g, values) == [MetaTokens(g, values[0])] + [];
          assert MetaParts(g, values)[0] == MetaTokens(g, values[0]);
          var m := ParseMeta(g, first);
          assert ParseMetas(g, parts) == if m.None? then None else Some([m.value]);
          assert m.Some? && [m.value] == values ==> m.value == [m.value][0] == values[0];
        }
      }
    } else {
      assert MetaParts(g, values) + [[]] == [[]];
    }
  }

  lemma {:induction false} PartsCons(g: Grammar, values: seq<Meta>, rest: seq<seq<Token>>)
    requires values != [] && AllValid(g, values)
    ensures var first, tail := MetaTokens(g, values[0]), MetaParts(g, values[1..]);
      && ([first] + rest == MetaParts(g, values) + [[]] <==> rest == tail + [[]])
      && ([first] + rest == MetaParts(g, values) <==> rest == tail)
  {
    var first, tail := MetaTokens(g, values[0]), MetaParts(g, values[1..]);
    assert MetaParts(g, values) + [[]] == [first] + (tail + [[]]);
    assert ([first] + rest)[1..] == rest;
    assert ([first] + (tail + [[]]))[1..] == tail + [[]];
    assert ([first] + tail)[1..] == tail;
  }

  /** Lists a parse can return: valid metas without top-level commas, and commas alternating with them. */
  predicate ValidList(g: Grammar, p: Punctuated) {
    && AllValid(g, p.values)
    && (forall i :: 0 <= i < |p.values| ==> COMMA !in MetaParts(g, p.values)[i])
    && (p.commas == |p.values| || p.commas + 1 == |p.values|)
  }

  /** A list as tokens: its metas joined by commas, and nothing behind a trailing comma. */
  function ListTokens(g: Grammar, p: Punctuated): seq<Token>
    requires ValidList(g, p)
  {
    Join(MetaParts(g, p.values) + (if p.commas == |p.values| then [[]] else []), [COMMA])
  }

  /**
   Splitting loses nothing and misses nothing: a list is parsed from a token stream exactly when
   it is valid and prints, with its commas and its trailing comma, to that very stream.
   */
  lemma {:induction false} SplitExact(g: Grammar, ts: seq<Token>, p: Punctuated)
    ensures ParseList(g, ts) == Some(p) <==> ValidList(g, p) && ListTokens(g, p) == ts
  {
    var parts := Split(ts, COMMA);
    JoinSplit(ts, COMMA);
    MetasExact(g, parts, p.values);
    if AllValid(g, p.values) {
      var metas := MetaParts(g, p.values);
      assert metas + [] == metas;
      var printed := metas + (if p.commas == |p.values| then [[]] else []);
      if ParseList(g, ts) == Some(p) {
        assert parts == printed;
        assert forall i :: 0 <= i < |metas| ==> metas[i] == parts[i];
      }
      if ValidList(g, p) && ListTokens(g, p) == ts {
        SplitJoin(printed, COMMA);
      }
    }
  }
}
