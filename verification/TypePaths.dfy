/**
 Type paths such as `a::b<C, D<E>>` and `<T as A>::B`: the part of Rust's type grammar that role
 declarations use. What stands for a type or an argument without being such a path is left to the
 grammar parameter. As in the macro, a parsed path keeps its spelling.
 */
module TypePaths {
  import opened Tokens
  import opened Wrappers

  /** `Parenthesised` are paths like `Fn(A) -> B`, which are types but not read where a bare path is due. */
  datatype TypePath =
    | Unqualified(path: Path)
    | Qualified(selfType: Argument, asTrait: Option<Path>, segments: seq<Segment>)
    | Parenthesised(tokens: seq<Token>)

  datatype Path = Path(leading: bool, segments: seq<Segment>)

  /** Arguments may be introduced by `::<`, and may have a comma behind the last one. */
  datatype Segment =
    | Plain(word: Token)
    | Generic(word: Token, turbofish: bool, args: seq<Argument>, trailing: bool)

  datatype Argument = TypeArgument(ty: TypePath) | OtherArgument(tokens: seq<Token>)

  const LESS := Punct('<')
  const GREATER := Punct('>')
  const AS := Keyword("as")

  /** Path keywords that take no generic arguments. */
  predicate TakesNoArgs(word: Token) {
    word == Keyword("super") || word == Keyword("self") || word == Keyword("crate")
  }

  predicate OpensArgs(ts: seq<Token>) {
    Peek(ts, LESS) || (|ts| > 1 && ts[0] == PathSep && ts[1] == LESS)
  }

  /** How the grammar reads the front of the tokens where a self type or an argument is due. */
  function Reads(g: Grammar, ts: seq<Token>, isSelf: bool): (r: Reading)
    ensures !r.PlainPath? ==> 0 < r.n <= |ts|
  {
    var r := if isSelf then g.readType(ts) else g.readArgument(ts);
    if !r.PlainPath? && 0 < r.n <= |ts| then r else PlainPath
  }

  // ---------- Parsing ----------

  function ParseType(g: Grammar, ts: seq<Token>): (r: Option<(TypePath, seq<Token>)>)
    ensures r.Some? ==> |r.value.1| < |ts| && !r.value.0.Parenthesised?
    ensures r.Some? && r.value.0.Unqualified? ==> r.value.0.path.segments != []
    decreases |ts|, 3
  {
    if Peek(ts, LESS) then
      var s := ParseArgument(g, ts[1..], true);
      if s.None? then None else ParseQualified(g, s.value.0, s.value.1)
    else
      var p := ParsePath(g, ts);
      if p.None? then None else Some((Unqualified(p.value.0), p.value.1))
  }

  /** What follows the self type: a trait or none, the closing bracket, and the path under it. */
  function ParseQualified(g: Grammar, selfType: Argument, ts: seq<Token>): (r: Option<(TypePath, seq<Token>)>)
    ensures r.Some? ==> |r.value.1| < |ts| && r.value.0.Qualified?
    decreases |ts|, 3
  {
    if Peek(ts, AS) then
      var p := ParsePath(g, ts[1..]);
      if p.None? then None else ParseUnder(g, selfType, Some(p.value.0), p.value.1)
    else ParseUnder(g, selfType, None, ts)
  }

  function ParseUnder(g: Grammar, selfType: Argument, asTrait: Option<Path>, ts: seq<Token>)
    : (r: Option<(TypePath, seq<Token>)>)
    ensures r.Some? ==> |r.value.1| < |ts| && r.value.0.Qualified?
    decreases |ts|, 2
  {
    if |ts| < 2 || ts[0] != GREATER || ts[1] != PathSep then None
    else
      var r := ParseSegments(g, ts[2..]);
      if r.None? then None else Some((Qualified(selfType, asTrait, r.value.0), r.value.1))
  }

  function ParsePath(g: Grammar, ts: seq<Token>): (r: Option<(Path, seq<Token>)>)
    ensures r.Some? ==> |r.value.1| < |ts| && r.value.0.segments != []
    decreases |ts|, 2
  {
    var leading := Peek(ts, PathSep);
    var r := ParseSegments(g, if leading then ts[1..] else ts);
    if r.None? then None else Some((Path(leading, r.value.0), r.value.1))
  }

  function ParseSegments(g: Grammar, ts: seq<Token>): (r: Option<(seq<Segment>, seq<Token>)>)
    ensures r.Some? ==> |r.value.1| < |ts| && r.value.0 != []
    decreases |ts|, 1
  {
    var s := ParseSegment(g, ts);
    if s.None? then None
    else if !Peek(s.value.1, PathSep) then Some(([s.value.0], s.value.1))
    else
      var r := ParseSegments(g, s.value.1[1..]);
      if r.None? then None else Some(([s.value.0] + r.value.0, r.value.1))
  }

  function ParseSegment(g: Grammar, ts: seq<Token>): (r: Option<(Segment, seq<Token>)>)
    ensures r.Some? ==> |r.value.1| < |ts|
    decreases |ts|, 0
  {
    if ts == [] || !IsPathWord(ts[0]) then None
    else if TakesNoArgs(ts[0]) || !OpensArgs(ts[1..]) then Some((Plain(ts[0]), ts[1..]))
    else
      var turbofish := ts[1] == PathSep;
      var r := ParseArgs(g, if turbofish then ts[3..] else ts[2..]);
      if r.None? then None else Some((Generic(ts[0], turbofish, r.value.0, r.value.1), r.value.2))
  }

  /** Arguments up to the closing bracket, the opening one already consumed, and whether a comma stood last. */
  function ParseArgs(g: Grammar, ts: seq<Token>): (r: Option<(seq<Argument>, bool, seq<Token>)>)
    ensures r.Some? ==> |r.value.2| < |ts|
    decreases |ts|, 5
  {
    if Peek(ts, GREATER) then Some(([], false, ts[1..]))
    else
      var a := ParseArgument(g, ts, false);
      if a.None? then None
      else if Peek(a.value.1, GREATER) then Some(([a.value.0], false, a.value.1[1..]))
      else if !Peek(a.value.1, COMMA) then None
      else
        var r := ParseArgs(g, a.value.1[1..]);
        if r.None? then None
        else Some(([a.value.0] + r.value.0, r.value.1 || r.value.0 == [], r.value.2))
  }

  function ParseArgument(g: Grammar, ts: seq<Token>, isSelf: bool): (r: Option<(Argument, seq<Token>)>)
    ensures r.Some? ==> |r.value.1| < |ts|
    decreases |ts|, 4
  {
    match Reads(g, ts, isSelf)
    case SpecialPath(n) => Some((TypeArgument(Parenthesised(ts[..n])), ts[n..]))
    case NoPath(n) => Some((OtherArgument(ts[..n]), ts[n..]))
    case PlainPath =>
      var t := ParseType(g, ts);
      if t.None? then None else Some((TypeArgument(t.value.0), t.value.1))
  }

  // ---------- Printing: each function puts its tokens in front of the rest ----------

  function TypeText(t: TypePath, rest: seq<Token>): seq<Token>
    decreases t, 0
  {
    match t
    case Unqualified(p) => PathText(p, rest)
    case Qualified(s, asTrait, segments) =>
      [Punct('<')] + ArgumentText(s, TraitText(asTrait, [Punct('>'), PathSep] + SegmentsText(segments, rest)))
    case Parenthesised(tokens) => tokens + rest
  }

  function TraitText(asTrait: Option<Path>, rest: seq<Token>): seq<Token>
    decreases asTrait, 0
  {
    if asTrait.None? then rest else [Keyword("as")] + PathText(asTrait.value, rest)
  }

  function PathText(p: Path, rest: seq<Token>): seq<Token>
    decreases p, 0
  {
    if p.leading then [PathSep] + SegmentsText(p.segments, rest) else SegmentsText(p.segments, rest)
  }

  function SegmentsText(segments: seq<Segment>, rest: seq<Token>): seq<Token>
    decreases segments, 0
  {
    if segments == [] then rest else SegmentText(segments[0], AfterSegment(segments, rest))
  }

  function AfterSegment(segments: seq<Segment>, rest: seq<Token>): seq<Token>
    requires segments != []
    decreases segments[1..], 1
  {
    if |segments| == 1 then rest else [PathSep] + SegmentsText(segments[1..], rest)
  }

  function SegmentText(s: Segment, rest: seq<Token>): seq<Token>
    decreases s, 0
  {
    match s
    case Plain(word) => [word] + rest
    case Generic(word, turbofish, args, trailing) =>
      (if turbofish then [word, PathSep, Punct('<')] else [word, Punct('<')]) + ArgsText(args, trailing, rest)
  }

  function ArgsText(args: seq<Argument>, trailing: bool, rest: seq<Token>): seq<Token>
    decreases args, 0
  {
    if args == [] then [Punct('>')] + rest else ArgumentText(args[0], AfterArgument(args, trailing, rest))
  }

  function AfterArgument(args: seq<Argument>, trailing: bool, rest: seq<Token>): seq<Token>
    requires args != []
    decreases args[1..], 1
  {
    if |args| == 1 && !trailing then [Punct('>')] + rest else [Punct(',')] + ArgsText(args[1..], trailing, rest)
  }

  function ArgumentText(a: Argument, rest: seq<Token>): seq<Token>
    decreases a, 0
  {
    if a.TypeArgument? then TypeText(a.ty, rest) else a.tokens + rest
  }

  // ---------- What can be read back, in front of the rest ----------

  /**
   The type is made of path words, the grammar takes its arguments for what they are, and nothing in
   the rest would be taken for a part of it.
   */
  predicate FitsType(g: Grammar, t: TypePath, rest: seq<Token>)
    decreases t, 0
  {
    match t
    case Unqualified(p) => FitsPath(g, p, rest)
    case Qualified(s, asTrait, segments) =>
      var under := [GREATER, PathSep] + SegmentsText(segments, rest);
      && FitsArgument(g, s, true, TraitText(asTrait, under))
      && (asTrait.Some? ==> FitsPath(g, asTrait.value, under))
      && FitsSegments(g, segments, rest)
    case Parenthesised(_) => false
  }

  predicate FitsPath(g: Grammar, p: Path, rest: seq<Token>)
    decreases p, 0
  {
    FitsSegments(g, p.segments, rest)
  }

  predicate FitsSegments(g: Grammar, segments: seq<Segment>, rest: seq<Token>)
    decreases segments, 0
  {
    && segments != []
    && FitsSegment(g, segments[0], AfterSegment(segments, rest))
    && (if |segments| == 1 then !Peek(rest, PathSep) else FitsSegments(g, segments[1..], rest))
  }

  predicate FitsSegment(g: Grammar, s: Segment, rest: seq<Token>)
    decreases s, 0
  {
    && IsPathWord(s.word)
    && match s
       case Plain(word) => TakesNoArgs(word) || !OpensArgs(rest)
       case Generic(word, _, args, trailing) =>
         !TakesNoArgs(word) && (trailing ==> args != []) && FitsArgs(g, args, trailing, rest)
  }

  predicate FitsArgs(g: Grammar, args: seq<Argument>, trailing: bool, rest: seq<Token>)
    decreases args, 0
  {
    args == [] ||
    (&& !Peek(ArgsText(args, trailing, rest), GREATER)
     && FitsArgument(g, args[0], false, AfterArgument(args, trailing, rest))
     && FitsArgs(g, args[1..], trailing, rest))
  }

  predicate FitsArgument(g: Grammar, a: Argument, isSelf: bool, rest: seq<Token>)
    decreases a, 0
  {
    var reading := Reads(g, ArgumentText(a, rest), isSelf);
    match a
    case OtherArgument(tokens) => reading == NoPath(|tokens|)
    case TypeArgument(t) =>
      if t.Parenthesised? then reading == SpecialPath(|t.tokens|) else reading.PlainPath? && FitsType(g, t, rest)
  }

  /** Which words open generic arguments before `<` or `::<`: all path words but `super`, `self` and `crate`. */
  lemma {:induction false} WordOpensArgs(g: Grammar, word: Token, turbofish: bool, rest: seq<Token>)
    requires word.Ident? || (word.Keyword? && word.name in ["super", "self", "Self", "crate"])
    ensures var ts := [word] + (if turbofish then [PathSep, Punct('<')] else [Punct('<')]) + rest;
      ParseSegment(g, ts) ==
        if word.Keyword? && word.name != "Self" then Some((Plain(word), ts[1..]))
        else
          var r := ParseArgs(g, rest);
          if r.None? then None else Some((Generic(word, turbofish, r.value.0, r.value.1), r.value.2))
  {
    var ts := [word] + (if turbofish then [PathSep, Punct('<')] else [Punct('<')]) + rest;
    assert ts[if turbofish then 3 else 2..] == rest;
    assert ts[1..][0] == ts[1] && (turbofish ==> ts[1..][1] == ts[2]);
  }

  // ---------- Parsing inverts printing ----------

  lemma {:induction false} SegmentsStart(g: Grammar, segments: seq<Segment>, rest: seq<Token>)
    requires FitsSegments(g, segments, rest)
    ensures SegmentsText(segments, rest) != [] && IsPathWord(SegmentsText(segments, rest)[0])
  {
  }

  lemma {:induction false} TypeComplete(g: Grammar, t: TypePath, rest: seq<Token>)
    requires FitsType(g, t, rest)
    ensures ParseType(g, TypeText(t, rest)) == Some((t, rest))
    decreases t, 1
  {
    match t
    case Unqualified(p) =>
      PathComplete(g, p, rest);
      SegmentsStart(g, p.segments, rest);
    case Qualified(s, asTrait, segments) =>
      var under := [GREATER, PathSep] + SegmentsText(segments, rest);
      var behind := TraitText(asTrait, under);
      SegmentsComplete(g, segments, rest);
      if asTrait.Some? { PathComplete(g, asTrait.value, under); }
      QualifiedComplete(g, s, asTrait, segments, rest);
      ArgumentComplete(g, s, true, behind);
      assert TypeText(t, rest)[1..] == ArgumentText(s, behind);
  }

  /** The part behind the self type, once its own parts are known to come back. */
  lemma {:induction false} QualifiedComplete(g: Grammar, s: Argument, asTrait: Option<Path>, segments: seq<Segment>,
                                             rest: seq<Token>)
    requires ParseSegments(g, SegmentsText(segments, rest)) == Some((segments, rest))
    requires var under := [GREATER, PathSep] + SegmentsText(segments, rest);
      asTrait.Some? ==> ParsePath(g, PathText(asTrait.value, under)) == Some((asTrait.value, under))
    ensures var under := [GREATER, PathSep] + SegmentsText(segments, rest);
      ParseQualified(g, s, TraitText(asTrait, under)) == Some((Qualified(s, asTrait, segments), rest))
  {
    var under := [GREATER, PathSep] + SegmentsText(segments, rest);
    assert under[2..] == SegmentsText(segments, rest);
    if asTrait.Some? { assert TraitText(asTrait, under)[1..] == PathText(asTrait.value, under); }
  }

  lemma {:induction false} PathComplete(g: Grammar, p: Path, rest: seq<Token>)
    requires FitsPath(g, p, rest)
    ensures ParsePath(g, PathText(p, rest)) == Some((p, rest))
    decreases p, 1
  {
    SegmentsComplete(g, p.segments, rest);
    SegmentsStart(g, p.segments, rest);
    assert p.leading ==> PathText(p, rest)[1..] == SegmentsText(p.segments, rest);
  }

  lemma {:induction false} SegmentsComplete(g: Grammar, segments: seq<Segment>, rest: seq<Token>)
    requires FitsSegments(g, segments, rest)
    ensures ParseSegments(g, SegmentsText(segments, rest)) == Some((segments, rest))
    decreases segments, 1
  {
    var after := AfterSegment(segments, rest);
    SegmentComplete(g, segments[0], after);
    if |segments| == 1 {
      assert segments == [segments[0]];
    } else {
      SegmentsComplete(g, segments[1..], rest);
      assert after[1..] == SegmentsText(segments[1..], rest);
      assert segments == [segments[0]] + segments[1..];
    }
  }

  lemma {:induction false} SegmentComplete(g: Grammar, s: Segment, rest: seq<Token>)
    requires FitsSegment(g, s, rest)
    ensures ParseSegment(g, SegmentText(s, rest)) == Some((s, rest))
    decreases s, 1
  {
    var ts := SegmentText(s, rest);
    if s.Plain? {
      assert ts[1..] == rest;
    } else {
      ArgsComplete(g, s.args, s.trailing, rest);
      var args := ArgsText(s.args, s.trailing, rest);
      assert ts[if s.turbofish then 3 else 2..] == args;
      assert ts[1..][0] == ts[1] && (s.turbofish ==> ts[1..][1] == ts[2]);
    }
  }

  lemma {:induction false} LastArgument(g: Grammar, ts: seq<Token>, a: Argument, rest: seq<Token>)
    requires !Peek(ts, GREATER) && ParseArgument(g, ts, false) == Some((a, [GREATER] + rest))
    ensures ParseArgs(g, ts) == Some(([a], false, rest))
  {
    assert ([GREATER] + rest)[1..] == rest;
  }

  lemma {:induction false} NextArgument(g: Grammar, ts: seq<Token>, a: Argument, more: seq<Token>)
    requires !Peek(ts, GREATER) && ParseArgument(g, ts, false) == Some((a, [COMMA] + more))
    requires ParseArgs(g, more).Some?
    ensures var (tail, trailing, rest) := ParseArgs(g, more).value;
      ParseArgs(g, ts) == Some(([a] + tail, trailing || tail == [], rest))
  {
    assert ([COMMA] + more)[1..] == more;
  }

  lemma {:induction false} ArgsComplete(g: Grammar, args: seq<Argument>, trailing: bool, rest: seq<Token>)
    requires FitsArgs(g, args, trailing, rest)
    ensures ParseArgs(g, ArgsText(args, trailing, rest)) == Some((args, trailing && args != [], rest))
    decreases args, 1
  {
    var ts := ArgsText(args, trailing, rest);
    if args == [] {
      assert ts[1..] == rest;
    } else {
      ArgumentComplete(g, args[0], false, AfterArgument(args, trailing, rest));
      if |args| == 1 && !trailing {
        LastArgument(g, ts, args[0], rest);
        assert args == [args[0]];
      } else {
        ArgsComplete(g, args[1..], trailing, rest);
        NextArgument(g, ts, args[0], ArgsText(args[1..], trailing, rest));
        assert args == [args[0]] + args[1..];
      }
    }
  }

  lemma {:induction false} ArgumentComplete(g: Grammar, a: Argument, isSelf: bool, rest: seq<Token>)
    requires FitsArgument(g, a, isSelf, rest)
    ensures ParseArgument(g, ArgumentText(a, rest), isSelf) == Some((a, rest))
    decreases a, 1
  {
    if a.OtherArgument? {
      assert (a.tokens + rest)[..|a.tokens|] == a.tokens && (a.tokens + rest)[|a.tokens|..] == rest;
    } else if a.ty.Parenthesised? {
      assert (a.ty.tokens + rest)[..|a.ty.tokens|] == a.ty.tokens && (a.ty.tokens + rest)[|a.ty.tokens|..] == rest;
    } else {
      TypeComplete(g, a.ty, rest);
    }
  }

  // ---------- Printing inverts parsing ----------

  lemma {:induction false} TypeSound(g: Grammar, ts: seq<Token>)
    requires ParseType(g, ts).Some?
    ensures var (t, rest) := ParseType(g, ts).value; FitsType(g, t, rest) && ts == TypeText(t, rest)
    decreases |ts|, 3
  {
    if Peek(ts, LESS) {
      var s := ParseArgument(g, ts[1..], true).value;
      QualifiedSound(g, s.0, s.1);
      ArgumentSound(g, ts[1..], true);
      assert ts == [LESS] + ts[1..];
    } else {
      PathSound(g, ts);
    }
  }

  lemma {:induction false} QualifiedSound(g: Grammar, s: Argument, ts: seq<Token>)
    requires ParseQualified(g, s, ts).Some?
    ensures var (t, rest) := ParseQualified(g, s, ts).value;
      && t.selfType == s
      && var under := [GREATER, PathSep] + SegmentsText(t.segments, rest);
      && (t.asTrait.Some? ==> FitsPath(g, t.asTrait.value, under))
      && FitsSegments(g, t.segments, rest)
      && ts == TraitText(t.asTrait, under)
    decreases |ts|, 3
  {
    if Peek(ts, AS) {
      PathSound(g, ts[1..]);
      UnderSound(g, ParsePath(g, ts[1..]).value.1);
      assert ts == [AS] + ts[1..];
    } else {
      UnderSound(g, ts);
    }
  }

  lemma {:induction false} UnderSound(g: Grammar, ts: seq<Token>)
    requires |ts| >= 2 && ts[0] == GREATER && ts[1] == PathSep && ParseSegments(g, ts[2..]).Some?
    ensures var (segments, rest) := ParseSegments(g, ts[2..]).value;
      FitsSegments(g, segments, rest) && ts == [GREATER, PathSep] + SegmentsText(segments, rest)
    decreases |ts|, 2
  {
    SegmentsSound(g, ts[2..]);
    assert ts == [ts[0], ts[1]] + ts[2..];
  }

  lemma {:induction false} PathSound(g: Grammar, ts: seq<Token>)
    requires ParsePath(g, ts).Some?
    ensures var (p, rest) := ParsePath(g, ts).value; FitsPath(g, p, rest) && ts == PathText(p, rest)
    decreases |ts|, 2
  {
    if Peek(ts, PathSep) {
      SegmentsSound(g, ts[1..]);
      assert ts == [PathSep] + ts[1..];
    } else {
      SegmentsSound(g, ts);
    }
  }

  lemma {:induction false} SegmentsSound(g: Grammar, ts: seq<Token>)
    requires ParseSegments(g, ts).Some?
    ensures var (segments, rest) := ParseSegments(g, ts).value;
      FitsSegments(g, segments, rest) && ts == SegmentsText(segments, rest)
    decreases |ts|, 1
  {
    SegmentSound(g, ts);
    var (s, after) := ParseSegment(g, ts).value;
    if Peek(after, PathSep) {
      SegmentsSound(g, after[1..]);
      var tail := ParseSegments(g, after[1..]).value.0;
      assert after == [PathSep] + after[1..];
      assert ([s] + tail)[1..] == tail;
    }
  }

  lemma {:induction false} SegmentSound(g: Grammar, ts: seq<Token>)
    requires ParseSegment(g, ts).Some?
    ensures var (s, rest) := ParseSegment(g, ts).value; FitsSegment(g, s, rest) && ts == SegmentText(s, rest)
    decreases |ts|, 0
  {
    if TakesNoArgs(ts[0]) || !OpensArgs(ts[1..]) {
      assert ts == [ts[0]] + ts[1..];
    } else if ts[1] == PathSep {
      ArgsSound(g, ts[3..]);
      assert ts == [ts[0], PathSep, LESS] + ts[3..];
    } else {
      ArgsSound(g, ts[2..]);
      assert ts == [ts[0], LESS] + ts[2..];
    }
  }

  lemma {:induction false} ArgsSound(g: Grammar, ts: seq<Token>)
    requires ParseArgs(g, ts).Some?
    ensures var (args, trailing, rest) := ParseArgs(g, ts).value;
      (trailing ==> args != []) && FitsArgs(g, args, trailing, rest) && ts == ArgsText(args, trailing, rest)
    decreases |ts|, 5
  {
    if Peek(ts, GREATER) {
      assert ts == [GREATER] + ts[1..];
    } else {
      ArgumentSound(g, ts, false);
      var (a, after) := ParseArgument(g, ts, false).value;
      if Peek(after, GREATER) {
        assert after == [GREATER] + after[1..];
        OneArgument(g, a, after);
      } else {
        ArgsSound(g, after[1..]);
        var (tail, more, rest) := ParseArgs(g, after[1..]).value;
        assert after == [COMMA] + after[1..];
        MoreArguments(g, a, tail, more, rest);
      }
    }
  }

  lemma {:induction false} OneArgument(g: Grammar, a: Argument, after: seq<Token>)
    requires FitsArgument(g, a, false, after) && Peek(after, GREATER) && after == [GREATER] + after[1..]
    ensures ArgsText([a], false, after[1..]) == ArgumentText(a, after)
    ensures !Peek(ArgumentText(a, after), GREATER) ==> FitsArgs(g, [a], false, after[1..])
  {
    assert [a][1..] == [];
  }

  lemma {:induction false} MoreArguments(g: Grammar, a: Argument, tail: seq<Argument>, more: bool, rest: seq<Token>)
    requires (more ==> tail != []) && FitsArgs(g, tail, more, rest)
    requires FitsArgument(g, a, false, [COMMA] + ArgsText(tail, more, rest))
    ensures var text := ArgumentText(a, [COMMA] + ArgsText(tail, more, rest));
      && ArgsText([a] + tail, more || tail == [], rest) == text
      && (!Peek(text, GREATER) ==> FitsArgs(g, [a] + tail, more || tail == [], rest))
  {
    assert ([a] + tail)[1..] == tail;
    assert ArgsText(tail, more || tail == [], rest) == ArgsText(tail, more, rest);
  }

  lemma {:induction false} ArgumentSound(g: Grammar, ts: seq<Token>, isSelf: bool)
    requires ParseArgument(g, ts, isSelf).Some?
    ensures var (a, rest) := ParseArgument(g, ts, isSelf).value;
      FitsArgument(g, a, isSelf, rest) && ts == ArgumentText(a, rest)
    decreases |ts|, 4
  {
    match Reads(g, ts, isSelf)
    case SpecialPath(n) => assert ts == ts[..n] + ts[n..];
    case NoPath(n) => assert ts == ts[..n] + ts[n..];
    case PlainPath => TypeSound(g, ts);
  }

  /** Parsing a type is the exact inverse of printing one in front of what follows. */
  lemma {:induction false} TypeExact(g: Grammar, ts: seq<Token>, t: TypePath, rest: seq<Token>)
    ensures ParseType(g, ts) == Some((t, rest)) <==> FitsType(g, t, rest) && ts == TypeText(t, rest)
  {
    if ParseType(g, ts) == Some((t, rest)) { TypeSound(g, ts); }
    if FitsType(g, t, rest) && ts == TypeText(t, rest) { TypeComplete(g, t, rest); }
  }
}
