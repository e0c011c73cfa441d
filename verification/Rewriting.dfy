/**
 Replacing every emoji of a text. The emoji pattern itself is a data table and stays
 abstract: any function that says how long the match starting at a position is.
 */
module Rewriting {
  import opened JsStrings
  import opened Utf16
  import opened IconNames
  import opened Wrappers

  /**
   A pattern given by the length it would match at a position of a text. A match ends inside
   the text, so anything longer counts as no match, as does length 0.
   */
  datatype Pattern = Pattern(length: (JsString, nat) -> nat) {
    function At(t: JsString, i: nat): (len: nat)
      requires i < |t|
      ensures i + len <= |t|
    {
      if length(t, i) <= |t| - i then length(t, i) else 0
    }
  }

  datatype Span = Span(start: nat, len: nat) {
    function End(): nat { start + len }
  }

  /** The matches a global replacement visits: scan to the right, skip over each match. */
  function Matches(m: Pattern, t: JsString, from: nat): seq<Span>
    requires from <= |t|
    decreases |t| - from
  {
    if from == |t| then []
    else if m.At(t, from) == 0 then Matches(m, t, from + 1)
    else [Span(from, m.At(t, from))] + Matches(m, t, from + m.At(t, from))
  }

  /**
   What it means to be the list of leftmost disjoint matches of `t[from..]`: each entry is
   a non-empty match, entries follow one another without overlap, and wherever the pattern
   matches, that position lies inside an entry.
   */
  ghost predicate LeftmostMatches(m: Pattern, t: JsString, from: nat, spans: seq<Span>) {
    && Disjoint(m, t, from, spans)
    && forall i {:trigger Covered(spans, i)} :: from <= i < |t| && m.At(t, i) > 0 ==> Covered(spans, i)
  }

  ghost predicate Disjoint(m: Pattern, t: JsString, from: nat, spans: seq<Span>) {
    && (forall k :: 0 <= k < |spans| ==>
          from <= spans[k].start < |t| && 0 < spans[k].len == m.At(t, spans[k].start))
    && (forall k, l :: 0 <= k < l < |spans| ==> spans[k].End() <= spans[l].start)
  }

  ghost predicate Covered(spans: seq<Span>, i: nat) {
    exists k :: 0 <= k < |spans| && spans[k].start <= i < spans[k].End()
  }

  lemma {:induction false} CoveredByCons(s: Span, rest: seq<Span>, i: nat)
    ensures Covered([s] + rest, i) <==> s.start <= i < s.End() || Covered(rest, i)
  {
    var all := [s] + rest;
    if s.start <= i < s.End() { assert all[0] == s; }
    if Covered(rest, i) {
      var k :| 0 <= k < |rest| && rest[k].start <= i < rest[k].End();
      assert all[k + 1] == rest[k];
    }
    if Covered(all, i) {
      var k :| 0 <= k < |all| && all[k].start <= i < all[k].End();
      if k > 0 { assert all[k] == rest[k - 1]; }
    }
  }

  lemma {:induction false} DisjointCons(m: Pattern, t: JsString, from: nat, s: Span, rest: seq<Span>)
    requires from < |t| && s.len > 0
    ensures Disjoint(m, t, from, [s] + rest) && s.start == from
       <==> s == Span(from, m.At(t, from)) && Disjoint(m, t, s.End(), rest)
  {
    var all := [s] + rest;
    if Disjoint(m, t, from, all) && s.start == from {
      assert all[0] == s;
      forall k | 0 <= k < |rest| ensures s.End() <= rest[k].start < |t| && 0 < rest[k].len == m.At(t, rest[k].start) {
        assert all[k + 1] == rest[k];
      }
      forall k, l | 0 <= k < l < |rest| ensures rest[k].End() <= rest[l].start {
        assert all[k + 1] == rest[k] && all[l + 1] == rest[l];
      }
    }
  }

  lemma {:induction false} LeftmostCons(m: Pattern, t: JsString, from: nat, s: Span, rest: seq<Span>)
    requires from < |t| && m.At(t, from) > 0
    ensures LeftmostMatches(m, t, from, [s] + rest)
       <==> s == Span(from, m.At(t, from)) && LeftmostMatches(m, t, s.End(), rest)
  {
    var all := [s] + rest;
    if LeftmostMatches(m, t, from, all) {
      assert Covered(all, from);
      assert all[0] == s;
      assert s.start == from;
      DisjointCons(m, t, from, s, rest);
      forall i | s.End() <= i < |t| && m.At(t, i) > 0 ensures Covered(rest, i) {
        assert Covered(all, i);
        CoveredByCons(s, rest, i);
      }
    }
    if s == Span(from, m.At(t, from)) && LeftmostMatches(m, t, s.End(), rest) {
      DisjointCons(m, t, from, s, rest);
      forall i | from <= i < |t| && m.At(t, i) > 0 ensures Covered(all, i) {
        assert s.End() <= i ==> Covered(rest, i);
        CoveredByCons(s, rest, i);
      }
    }
  }

  /** The scan finds the leftmost matches, and the description leaves no other choice. */
  lemma {:induction false} MatchesAreLeftmost(m: Pattern, t: JsString, from: nat, spans: seq<Span>)
    requires from <= |t|
    ensures LeftmostMatches(m, t, from, spans) <==> spans == Matches(m, t, from)
    decreases |t| - from
  {
    if from == |t| {
      assert spans == [] || !(from <= spans[0].start < |t|);
    } else if m.At(t, from) == 0 {
      MatchesAreLeftmost(m, t, from + 1, spans);
      LeftmostSkip(m, t, from, spans);
    } else {
      var s := Span(from, m.At(t, from));
      var rest := Matches(m, t, s.End());
      MatchesAreLeftmost(m, t, s.End(), rest);
      LeftmostCons(m, t, from, s, rest);
      if LeftmostMatches(m, t, from, spans) {
        assert Covered(spans, from);
        assert spans == [spans[0]] + spans[1..];
        LeftmostCons(m, t, from, spans[0], spans[1..]);
        MatchesAreLeftmost(m, t, s.End(), spans[1..]);
      }
    }
  }

  lemma {:induction false} LeftmostSkip(m: Pattern, t: JsString, from: nat, spans: seq<Span>)
    requires from < |t| && m.At(t, from) == 0
    ensures LeftmostMatches(m, t, from, spans) <==> LeftmostMatches(m, t, from + 1, spans)
  {
    assert Disjoint(m, t, from, spans) <==> Disjoint(m, t, from + 1, spans);
  }

  /** Spans lying in `t[from..]`, in order. */
  predicate InOrder(t: JsString, spans: seq<Span>, from: nat) {
    if spans == [] then from <= |t|
    else from <= spans[0].start && InOrder(t, spans[1..], spans[0].End())
  }

  lemma {:induction false} InOrderBounds(t: JsString, spans: seq<Span>, from: nat)
    requires InOrder(t, spans, from)
    ensures from <= |t|
    ensures spans != [] ==> spans[0].start <= spans[0].End() <= |t|
  {
    if spans != [] { InOrderBounds(t, spans[1..], spans[0].End()); }
  }

  lemma {:induction false} MatchesInOrder(m: Pattern, t: JsString, from: nat, lower: nat)
    requires lower <= from <= |t|
    ensures InOrder(t, Matches(m, t, from), lower)
    decreases |t| - from
  {
    if from < |t| {
      var len := m.At(t, from);
      if len == 0 {
        MatchesInOrder(m, t, from + 1, lower);
      } else {
        MatchesInOrder(m, t, from + len, from + len);
      }
    }
  }

  /** `t[from..]` with each span's text replaced by `f` of it. */
  function Splice(t: JsString, spans: seq<Span>, f: JsString -> JsString, from: nat): JsString
    requires InOrder(t, spans, from)
  {
    InOrderBounds(t, spans, from);
    if spans == [] then t[from..]
    else
      t[from..spans[0].start] + f(t[spans[0].start..spans[0].End()])
      + Splice(t, spans[1..], f, spans[0].End())
  }

  /** String.prototype.replace with the emoji pattern and a callback free of side effects. */
  function Replace(m: Pattern, t: JsString, f: JsString -> JsString): JsString {
    MatchesInOrder(m, t, 0, 0);
    Splice(t, Matches(m, t, 0), f, 0)
  }

  function TotalLength(spans: seq<Span>): nat {
    if spans == [] then 0 else spans[0].len + TotalLength(spans[1..])
  }

  function OutputLength(t: JsString, spans: seq<Span>, f: JsString -> JsString, from: nat): nat
    requires InOrder(t, spans, from)
  {
    InOrderBounds(t, spans, from);
    if spans == [] then 0
    else |f(t[spans[0].start..spans[0].End()])| + OutputLength(t, spans[1..], f, spans[0].End())
  }

  /** Conservation: what is not matched is copied, what is matched is exchanged for its output. */
  lemma {:induction false} SpliceLength(t: JsString, spans: seq<Span>, f: JsString -> JsString, from: nat)
    requires InOrder(t, spans, from)
    ensures from <= |t|
    ensures |Splice(t, spans, f, from)| + TotalLength(spans) == |t| - from + OutputLength(t, spans, f, from)
  {
    InOrderBounds(t, spans, from);
    if spans != [] {
      SpliceLength(t, spans[1..], f, spans[0].End());
    }
  }

  lemma {:induction false} NoOutput(t: JsString, spans: seq<Span>, from: nat)
    requires InOrder(t, spans, from)
    ensures OutputLength(t, spans, Eraser(), from) == 0
  {
    InOrderBounds(t, spans, from);
    if spans != [] {
      NoOutput(t, spans[1..], spans[0].End());
    }
  }

  /** Replacing every match by itself changes nothing. */
  lemma {:induction false} SpliceIdentity(t: JsString, spans: seq<Span>, f: JsString -> JsString, from: nat)
    requires InOrder(t, spans, from)
    requires forall raw :: f(raw) == raw
    ensures from <= |t| && Splice(t, spans, f, from) == t[from..]
  {
    InOrderBounds(t, spans, from);
    if spans != [] {
      SpliceIdentity(t, spans[1..], f, spans[0].End());
      var s := spans[0];
      assert t[from..] == t[from..s.start] + t[s.start..s.End()] + t[s.End()..];
    }
  }

  lemma {:induction false} SpliceHead(t: JsString, spans: seq<Span>, f: JsString -> JsString, from: nat,
                                      before: JsString)
    requires spans != [] && InOrder(t, spans, from)
    ensures from <= spans[0].start <= spans[0].End() <= |t|
    ensures InOrder(t, spans[1..], spans[0].End())
    ensures before + Splice(t, spans, f, from)
         == before + t[from..spans[0].start] + f(t[spans[0].start..spans[0].End()])
            + Splice(t, spans[1..], f, spans[0].End())
  {
    InOrderBounds(t, spans, from);
  }

  lemma {:induction false} PrefixSlice(t: JsString, n: nat, i: nat, j: nat)
    requires i <= j <= n <= |t|
    ensures t[..n][i..j] == t[i..j]
  {
  }

  lemma {:induction false} Regroup(a: JsString, b: JsString, c: JsString, d: JsString, e: JsString)
    ensures [] + a + b + (c + d + e) == [] + a + b + c + d + e
  {
  }

  /**
   The output of a match stands between the rewriting of what precedes it and the rewriting
   of what follows it, whatever happens to the other matches.
   */
  lemma {:induction false} SpliceAround(t: JsString, a: seq<Span>, s: Span, b: seq<Span>,
                                        f: JsString -> JsString, from: nat)
    requires InOrder(t, a + [s] + b, from)
    ensures s.start <= s.End() <= |t|
    ensures InOrder(t[..s.start], a, from) && InOrder(t, b, s.End())
    ensures Splice(t, a + [s] + b, f, from)
         == Splice(t[..s.start], a, f, from) + f(t[s.start..s.End()]) + Splice(t, b, f, s.End())
  {
    var all := a + [s] + b;
    SpliceHead(t, all, f, from, []);
    if a == [] {
      assert all[1..] == b && all[0] == s;
      assert t[..s.start][from..] == t[from..s.start];
    } else {
      assert all[0] == a[0] && all[1..] == a[1..] + [s] + b;
      SpliceAround(t, a[1..], s, b, f, a[0].End());
      InOrderBounds(t[..s.start], a[1..], a[0].End());
      SpliceHead(t[..s.start], a, f, from, []);
      PrefixSlice(t, s.start, a[0].start, a[0].End());
      PrefixSlice(t, s.start, from, a[0].start);
      Regroup(t[from..a[0].start], f(t[a[0].start..a[0].End()]), Splice(t[..s.start], a[1..], f, a[0].End()),
              f(t[s.start..s.End()]), Splice(t, b, f, s.End()));
    }
  }

  // ---------- parseString ----------

  /** What parse hands to parseString: its own options and what its callback closes over. */
  datatype Options = Options(
    useSystem: bool, stylePath: JsString, ext: JsString,
    size: int, includePlain: bool, asMarkup: bool)

  datatype Parsed = Parsed(emojiCount: nat, plainCount: nat, text: JsString)

  /** The callback: no picture when the system font is used. */
  function Source(o: Options, icon: JsString): Option<JsString> {
    if o.useSystem then None else Some(o.stylePath + Js("/") + icon + Js(".") + o.ext)
  }

  function Markup(o: Options, src: JsString): JsString {
    Js("<img ") + Js("src=\"") + src + Js("\" align=\"middle\" width=\"") + NumberString(o.size)
    + Js("\" height=\"") + NumberString(o.size) + Js("\"/>")
  }

  /** What the replacement callback returns for one match. */
  function Emit(o: Options, rawText: JsString): JsString {
    var icon := GrabTheRightIcon(rawText);
    var src := Source(o, icon);
    if icon != [] && src.Some? && src.value != [] then
      if o.asMarkup then Markup(o, src.value) else src.value
    else if o.includePlain then rawText else []
  }

  function Emitter(o: Options): JsString -> JsString { raw => Emit(o, raw) }

  function Eraser(): JsString -> JsString { raw => [] }

  /** parseString as a function of its arguments. */
  function ParsedText(m: Pattern, str: JsString, o: Options): Parsed {
    Parsed(|Matches(m, str, 0)|, |Replace(m, str, Eraser())|, Replace(m, str, Emitter(o)))
  }

  /** The replacement callback, minus its counting, which adds one in either branch. */
  method Callback(o: Options, rawText: JsString) returns (ret: JsString)
    ensures ret == Emit(o, rawText)
  {
    ret := if o.includePlain then rawText else [];
    var iconId := GrabTheRightIcon(rawText);
    var src := Source(o, iconId);
    if iconId != [] && src.Some? && src.value != [] {
      ret := if o.asMarkup then Markup(o, src.value) else src.value;
    }
  }

  method ParseString(m: Pattern, str: JsString, o: Options) returns (r: Parsed)
    ensures r == ParsedText(m, str, o)
  {
    var spans, f := Matches(m, str, 0), Emitter(o);
    MatchesInOrder(m, str, 0, 0);
    var emojiCount, ret, last: nat, rest := 0, [], 0, spans;
    while rest != []
      invariant emojiCount + |rest| == |spans|
      invariant InOrder(str, rest, last)
      invariant Splice(str, spans, f, 0) == ret + Splice(str, rest, f, last)
      decreases |rest|
    {
      SpliceHead(str, rest, f, last, ret);
      var out := Callback(o, str[rest[0].start..rest[0].End()]);
      emojiCount := emojiCount + 1;
      ret, last, rest := ret + str[last..rest[0].start] + out, rest[0].End(), rest[1..];
    }
    InOrderBounds(str, [], last);
    ret := ret + str[last..];
    r := Parsed(emojiCount, |Replace(m, str, Eraser())|, ret);
  }

  /** Outputs of all matches add up, and the counts are properties of the text alone. */
  lemma {:induction false} Conservation(m: Pattern, str: JsString, o: Options)
    ensures InOrder(str, Matches(m, str, 0), 0)
    ensures var r := ParsedText(m, str, o);
      && r.emojiCount == |Matches(m, str, 0)|
      && r.plainCount + TotalLength(Matches(m, str, 0)) == |str|
      && |r.text| == r.plainCount + OutputLength(str, Matches(m, str, 0), Emitter(o), 0)
  {
    MatchesInOrder(m, str, 0, 0);
    SpliceLength(str, Matches(m, str, 0), Eraser(), 0);
    NoOutput(str, Matches(m, str, 0), 0);
    SpliceLength(str, Matches(m, str, 0), Emitter(o), 0);
  }

  /** With the system font and plain text kept, nothing is rewritten; the counts stay those of any style. */
  lemma {:induction false} SystemFontKeepsText(m: Pattern, str: JsString, o: Options, other: Options)
    requires o.useSystem && o.includePlain
    ensures ParsedText(m, str, o).text == str
    ensures ParsedText(m, str, o) == ParsedText(m, str, other).(text := str)
  {
    MatchesInOrder(m, str, 0, 0);
    SpliceIdentity(str, Matches(m, str, 0), Emitter(o), 0);
  }

  /**
   A well-formed match becomes a picture exactly when a style is available and the match is
   more than variation selectors; otherwise it is kept verbatim or dropped.
   */
  lemma {:induction false} EmitCases(o: Options, rawText: JsString)
    requires WellFormed(rawText)
    ensures var selectorsOnly := forall i :: 0 <= i < |rawText| ==> rawText[i] == VARIATION;
      var url := o.stylePath + Js("/") + GrabTheRightIcon(rawText) + Js(".") + o.ext;
      Emit(o, rawText) ==
        if !o.useSystem && !selectorsOnly then if o.asMarkup then Markup(o, url) else url
        else if o.includePlain then rawText else []
  {
    EmptyIcon(rawText);
  }

  /** For a text that is one emoji, the single URL is shared by exactly the variants of that emoji. */
  lemma {:induction false} SingleUrlKernel(m: Pattern, o: Options, s: JsString, t: JsString)
    requires !o.useSystem && !o.includePlain && !o.asMarkup
    requires WellFormed(s) && WellFormed(t)
    requires Matches(m, s, 0) == [Span(0, |s|)] && Matches(m, t, 0) == [Span(0, |t|)]
    ensures ParsedText(m, s, o).text == ParsedText(m, t, o).text <==> SameEmoji(s, t)
  {
    WholeMatch(m, o, s);
    WholeMatch(m, o, t);
    IconKernel(s, t);
    var i, j := GrabTheRightIcon(s), GrabTheRightIcon(t);
    var pre, post := o.stylePath + Js("/"), Js(".") + o.ext;
    PictureUrl(o, s, pre, post);
    PictureUrl(o, t, pre, post);
    SameInfix(pre, i, j, post);
  }

  lemma {:induction false} PictureUrl(o: Options, s: JsString, pre: JsString, post: JsString)
    requires !o.useSystem && !o.includePlain && !o.asMarkup
    requires pre == o.stylePath + Js("/") && post == Js(".") + o.ext
    ensures Emit(o, s) == if GrabTheRightIcon(s) == [] then [] else pre + GrabTheRightIcon(s) + post
    ensures |pre| > 0
  {
    assert pre + GrabTheRightIcon(s) + post == o.stylePath + Js("/") + GrabTheRightIcon(s) + Js(".") + o.ext;
  }

  lemma {:induction false} SameInfix(pre: JsString, i: JsString, j: JsString, post: JsString)
    ensures pre + i + post == pre + j + post <==> i == j
  {
    assert i == (pre + i + post)[|pre|..|pre| + |i|];
    assert j == (pre + j + post)[|pre|..|pre| + |j|];
    assert |pre + i + post| == |pre| + |i| + |post|;
    assert |pre + j + post| == |pre| + |j| + |post|;
  }

  lemma {:induction false} WholeMatch(m: Pattern, o: Options, s: JsString)
    requires Matches(m, s, 0) == [Span(0, |s|)]
    ensures ParsedText(m, s, o).text == Emit(o, s)
  {
    MatchesInOrder(m, s, 0, 0);
    SpliceAround(s, [], Span(0, |s|), [], Emitter(o), 0);
    assert [] + [Span(0, |s|)] + [] == [Span(0, |s|)];
    assert s[0..|s|] == s;
  }

  /** The rewritten text around any one of its matches: what the callback returns for it stands in its place. */
  lemma {:induction false} EachMatch(m: Pattern, str: JsString, o: Options, a: seq<Span>, s: Span, b: seq<Span>)
    requires Matches(m, str, 0) == a + [s] + b
    ensures s.End() <= |str| && InOrder(str[..s.start], a, 0) && InOrder(str, b, s.End())
    ensures ParsedText(m, str, o).text
         == Splice(str[..s.start], a, raw => Emit(o, raw), 0) + Emit(o, str[s.start..s.End()])
            + Splice(str, b, raw => Emit(o, raw), s.End())
  {
    MatchesInOrder(m, str, 0, 0);
    SpliceAround(str, a, s, b, Emitter(o), 0);
    SameReplacement(str[..s.start], a, Emitter(o), raw => Emit(o, raw), 0);
    SameReplacement(str, b, Emitter(o), raw => Emit(o, raw), s.End());
  }

  lemma {:induction false} SameReplacement(t: JsString, spans: seq<Span>, f: JsString -> JsString,
                                           g: JsString -> JsString, from: nat)
    requires InOrder(t, spans, from) && forall raw :: f(raw) == g(raw)
    ensures Splice(t, spans, f, from) == Splice(t, spans, g, from)
  {
    InOrderBounds(t, spans, from);
    if spans != [] { SameReplacement(t, spans[1..], f, g, spans[0].End()); }
  }

  /** A text without emoji comes back as it is, under all options. */
  lemma {:induction false} NoMatch(m: Pattern, str: JsString, o: Options)
    requires Matches(m, str, 0) == []
    ensures ParsedText(m, str, o) == Parsed(0, |str|, str)
  {
    assert str[0..] == str;
  }
}
