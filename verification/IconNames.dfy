/**
 The icon name of an emoji: its code points in hexadecimal, joined by dashes, with
 variation selectors left out unless the emoji contains a zero-width joiner.
 */
module IconNames {
  import opened JsStrings
  import opened Splitting
  import opened Utf16
  import opened Wrappers

  const VARIATION: CodeUnit := 0xFE0F
  const JOINER: CodeUnit := 0x200D

  /** What the decoder loop pushes for a pending high surrogate and whatever unit follows it. */
  function Combine(p: CodeUnit, c: CodeUnit): nat
    requires IsHigh(p)
  {
    0x10000 + (p - 0xD800) * 0x400 + (c - 0xDC00)
  }

  /** The values the loop pushes for `s`, entered with pending surrogate `p`, or 0 for none. */
  function Values(s: JsString, p: CodeUnit): seq<nat>
    requires p == 0 || IsHigh(p)
  {
    if s == [] then []
    else if p != 0 then [Combine(p, s[0])] + Values(s[1..], 0)
    else if IsHigh(s[0]) then Values(s[1..], s[0])
    else [s[0]] + Values(s[1..], 0)
  }

  /** The pending surrogate the loop is left with. */
  function Pending(s: JsString, p: CodeUnit): (q: CodeUnit)
    requires p == 0 || IsHigh(p)
    ensures q == 0 || IsHigh(q)
  {
    if s == [] then p
    else if p == 0 && IsHigh(s[0]) then Pending(s[1..], s[0])
    else Pending(s[1..], 0)
  }

  function Hexes(vs: seq<nat>): (r: seq<JsString>)
    ensures |r| == |vs|
    ensures forall i :: 0 <= i < |vs| ==> r[i] == Radix(vs[i], 16)
  {
    if vs == [] then [] else [Radix(vs[0], 16)] + Hexes(vs[1..])
  }

  method ToCodePoint(s: JsString, sep: Option<JsString>) returns (icon: JsString)
    ensures sep.Some? && sep.value != [] ==> icon == Join(Hexes(Values(s, 0)), sep.value)
    ensures sep.None? || sep.value == [] || sep.value == [0x2D] ==> IsIconName(icon, Values(s, 0))
    ensures WellFormed(s) && sep.None? ==> IsIconName(icon, RfcDecode(s).value)
  {
    var r: seq<JsString> := [];
    var c: CodeUnit, p: CodeUnit, i := 0, 0, 0;
    while i < |s|
      invariant 0 <= i <= |s|
      invariant p == 0 || IsHigh(p)
      invariant Hexes(Values(s, 0)) == r + Hexes(Values(s[i..], p))
    {
      c := s[i];
      HexesStep(r, s, i, p);
      i := i + 1;
      if p != 0 {
        r := r + [Radix(0x10000 + (p - 0xD800) * 0x400 + (c - 0xDC00), 16)];
        p := 0;
      } else if 0xD800 <= c <= 0xDBFF {
        p := c;
      } else {
        r := r + [Radix(c, 16)];
      }
    }
    assert s[i..] == [] && r + [] == r;
    icon := Join(r, if sep.Some? && sep.value != [] then sep.value else [DASH]);
    IconNameExact(icon, Values(s, 0));
    if WellFormed(s) { ValuesRefineRfc(s); }
  }

  lemma {:induction false} HexesStep(r: seq<JsString>, s: JsString, i: nat, p: CodeUnit)
    requires i < |s| && (p == 0 || IsHigh(p))
    ensures r + Hexes(Values(s[i..], p)) ==
      if p != 0 then r + [Radix(Combine(p, s[i]), 16)] + Hexes(Values(s[i + 1..], 0))
      else if IsHigh(s[i]) then r + Hexes(Values(s[i + 1..], s[i]))
      else r + [Radix(s[i], 16)] + Hexes(Values(s[i + 1..], 0))
  {
    var q := if p == 0 && IsHigh(s[i]) then s[i] else 0;
    var rest := Hexes(Values(s[i + 1..], q));
    assert s[i..][0] == s[i] && s[i..][1..] == s[i + 1..];
    var pushed := if p != 0 then Radix(Combine(p, s[i]), 16) else Radix(s[i], 16);
    assert r + ([pushed] + rest) == r + [pushed] + rest;
  }

  // ---------- The loop against the RFC decoder ----------

  lemma {:induction false} ValuesRefineRfc(s: JsString)
    requires WellFormed(s)
    ensures Values(s, 0) == RfcDecode(s).value
    ensures Pending(s, 0) == 0
  {
    if s != [] {
      if IsHigh(s[0]) {
        ValuesRefineRfc(s[2..]);
        PairEncodes(s[0], s[1]);
        assert s[1..][1..] == s[2..];
      } else {
        ValuesRefineRfc(s[1..]);
      }
    }
  }

  /** The loop is faithful exactly on well-formed text: re-encoding its values gives the text back. */
  lemma {:induction false} FaithfulIffWellFormed(s: JsString)
    ensures WellFormed(s) <==> AllScalar(Values(s, 0)) && Encode(Values(s, 0)) == s
  {
    if WellFormed(s) {
      ValuesRefineRfc(s);
      EncodeDecode(s);
    }
    if AllScalar(Values(s, 0)) && Encode(Values(s, 0)) == s {
      DecodeEncode(Values(s, 0));
    }
  }

  /** Decoding a concatenation carries exactly the pending surrogate across the cut. */
  lemma {:induction false} ValuesConcat(a: JsString, b: JsString, p: CodeUnit)
    requires p == 0 || IsHigh(p)
    ensures Values(a + b, p) == Values(a, p) + Values(b, Pending(a, p))
  {
    if a == [] {
      assert a + b == b;
    } else {
      assert (a + b)[1..] == a[1..] + b;
      ValuesConcat(a[1..], b, if p == 0 && IsHigh(a[0]) then a[0] else 0);
    }
  }

  /** On arbitrary units no value exceeds 0x111FFF, and those pushed for a pair start at 0x2400. */
  lemma {:induction false} ValuesRange(s: JsString, p: CodeUnit)
    requires p == 0 || IsHigh(p)
    ensures forall i :: 0 <= i < |Values(s, p)| ==>
      Values(s, p)[i] <= 0x111FFF && (Values(s, p)[i] in s || 0x2400 <= Values(s, p)[i])
  {
    if s != [] {
      ValuesRange(s[1..], if p == 0 && IsHigh(s[0]) then s[0] else 0);
    }
  }

  /** Both bounds are met, and a proper pair gives a supplementary code point. */
  lemma {:induction false} PairRange(h: CodeUnit, c: CodeUnit)
    requires IsHigh(h)
    ensures Values([h, c], 0) == [Combine(h, c)]
    ensures IsLow(c) ==> 0x10000 <= Combine(h, c) <= 0x10FFFF && Combine(h, c) == PairValue(h, c)
    ensures Combine(h, c) == 0x2400 <==> h == 0xD800 && c == 0
    ensures Combine(h, c) == 0x111FFF <==> h == 0xDBFF && c == 0xFFFF
  {
    var pair := [h, c];
    assert pair[1..] == [c] && [c][1..] == [];
    assert Values([c], h) == [Combine(h, c)] + Values([], 0);
    assert Values(pair, 0) == Values(pair[1..], pair[0]);
    if IsLow(c) { PairEncodes(h, c); }
  }

  /** Nothing is pushed only for the empty text and for a single high surrogate. */
  lemma {:induction false} ValuesEmpty(s: JsString)
    ensures Values(s, 0) == [] <==> s == [] || (|s| == 1 && IsHigh(s[0]))
  {
    if |s| > 1 && IsHigh(s[0]) {
      assert Values(s, 0) == Values(s[1..], s[0]) == [Combine(s[0], s[1])] + Values(s[1..][1..], 0);
    }
  }

  // ---------- Round trip ----------

  function Icon(s: JsString): JsString {
    Join(Hexes(Values(s, 0)), [DASH])
  }

  function ParseAll(parts: seq<JsString>): seq<nat> {
    if parts == [] then [] else [ParseRadix(parts[0], 16)] + ParseAll(parts[1..])
  }

  /** Reading an icon name back: split at the dashes and read hexadecimal numbers. */
  function ParseIcon(icon: JsString): seq<nat> {
    if icon == [] then [] else ParseAll(Split(icon, DASH))
  }

  lemma {:induction false} ParseHexes(vs: seq<nat>)
    ensures ParseAll(Hexes(vs)) == vs
  {
    if vs != [] {
      RadixRoundTrip(vs[0], 16);
      ParseHexes(vs[1..]);
    }
  }

  lemma {:induction false} ParsePrinted(vs: seq<nat>)
    ensures ParseIcon(Join(Hexes(vs), [DASH])) == vs
    ensures Join(Hexes(vs), [DASH]) == [] <==> vs == []
  {
    if vs != [] {
      SplitJoin(Hexes(vs), DASH);
      ParseHexes(vs);
      assert Join(Hexes(vs), [DASH])[0] == Radix(vs[0], 16)[0];
    }
  }

  /** Encode, name, split, parse: every sequence of scalar values comes back. */
  lemma {:induction false} IconRoundTrip(vs: seq<nat>)
    requires AllScalar(vs)
    ensures ParseIcon(Icon(Encode(vs))) == vs
  {
    DecodeEncode(vs);
    ValuesRefineRfc(Encode(vs));
    ParsePrinted(vs);
  }

  /** Two texts have the same name exactly when the loop pushes the same values for both. */
  lemma {:induction false} IconDeterminesValues(s: JsString, t: JsString)
    ensures Icon(s) == Icon(t) <==> Values(s, 0) == Values(t, 0)
    ensures WellFormed(s) && WellFormed(t) ==> (Icon(s) == Icon(t) <==> s == t)
  {
    ParsePrinted(Values(s, 0));
    ParsePrinted(Values(t, 0));
    FaithfulIffWellFormed(s);
    FaithfulIffWellFormed(t);
  }

  /** A name of these values: their hexadecimal numerals between dashes, and nothing for no values. */
  predicate IsIconName(icon: JsString, vs: seq<nat>) {
    if vs == [] then icon == []
    else
      var parts := Split(icon, 0x2D);
      |parts| == |vs| && forall i :: 0 <= i < |vs| ==> IsNumeral(parts[i], vs[i], 16)
  }

  /** There is exactly one such name, the one that is printed. */
  lemma {:induction false} IconNameExact(icon: JsString, vs: seq<nat>)
    ensures IsIconName(icon, vs) <==> icon == Join(Hexes(vs), [DASH])
  {
    if vs != [] {
      var hexes, parts := Hexes(vs), Split(icon, DASH);
      forall i | 0 <= i < |vs| && |parts| == |vs| ensures IsNumeral(parts[i], vs[i], 16) <==> parts[i] == hexes[i] {
        NumeralExact(parts[i], vs[i], 16);
      }
      SplitJoin(hexes, DASH);
      JoinSplit(icon, DASH);
      assert IsIconName(icon, vs) ==> parts == hexes;
    }
  }

  // ---------- The icon chosen for a match ----------

  function IconSource(rawText: JsString): JsString {
    if JOINER !in rawText then Delete(rawText, VARIATION) else rawText
  }

  function GrabTheRightIcon(rawText: JsString): JsString {
    Icon(IconSource(rawText))
  }

  /** Deleting a unit is splitting at it and joining the parts with nothing between. */
  lemma {:induction false} DeleteIsJoin(s: JsString, u: CodeUnit)
    ensures Delete(s, u) == Join(Split(s, u), [])
  {
    if s != [] {
      var rest := Split(s[1..], u);
      DeleteIsJoin(s[1..], u);
      if s[0] == u {
        JoinCons([], rest, []);
        assert [] + ([] + Join(rest, [])) == Join(rest, []);
      } else {
        assert rest == [rest[0]] + rest[1..];
        JoinGrowBare(s[0], rest[0], rest[1..]);
      }
    }
  }

  lemma {:induction false} JoinGrowBare(x: CodeUnit, first: JsString, tail: seq<JsString>)
    ensures Join([[x] + first] + tail, []) == [x] + Join([first] + tail, [])
  {
    if tail == [] {
      assert [[x] + first] + tail == [[x] + first] && [first] + tail == [first];
    } else {
      JoinCons([x] + first, tail, []);
      JoinCons(first, tail, []);
      var rest := [] + Join(tail, []);
      assert [x] + first + rest == [x] + (first + rest);
    }
  }

  /** The code points without one of them. */
  function Without(vs: seq<nat>, v: nat): seq<nat> {
    if vs == [] then [] else (if vs[0] == v then [] else [vs[0]]) + Without(vs[1..], v)
  }

  lemma {:induction false} EncodeWithout(vs: seq<nat>, u: CodeUnit)
    requires AllScalar(vs) && !IsHigh(u) && !IsLow(u)
    ensures AllScalar(Without(vs, u)) && Encode(Without(vs, u)) == Delete(Encode(vs), u)
  {
    if vs != [] {
      var first, rest := EncodeOne(vs[0]), Encode(vs[1..]);
      EncodeWithout(vs[1..], u);
      DeleteConcat(first, rest, u);
      DeleteOne(vs[0], u);
      var kept := Without(vs[1..], u);
      if vs[0] == u {
        assert [] + kept == kept && [] + Delete(rest, u) == Delete(rest, u);
      } else {
        assert ([vs[0]] + kept)[1..] == kept;
      }
    }
  }

  lemma {:induction false} DeleteConcat(a: JsString, b: JsString, u: CodeUnit)
    ensures Delete(a + b, u) == Delete(a, u) + Delete(b, u)
  {
    if a == [] {
      assert a + b == b;
    } else {
      assert (a + b)[1..] == a[1..] + b;
      DeleteConcat(a[1..], b, u);
    }
  }

  lemma {:induction false} DeleteOne(v: nat, u: CodeUnit)
    requires IsScalar(v) && !IsHigh(u) && !IsLow(u)
    ensures Delete(EncodeOne(v), u) == if v == u then [] else EncodeOne(v)
  {
    var s := EncodeOne(v);
    if v < 0x10000 {
      assert s[1..] == [];
    } else {
      assert s[0] != u && s[1] != u && s[1..] == [s[1]] && s[1..][1..] == [];
      assert Delete(s[1..], u) == [s[1]] + Delete(s[1..][1..], u);
    }
  }

  lemma {:induction false} EncodedUnit(vs: seq<nat>, u: CodeUnit)
    requires AllScalar(vs) && !IsHigh(u) && !IsLow(u)
    ensures u in Encode(vs) <==> u in vs
  {
    if vs != [] {
      EncodedUnit(vs[1..], u);
      assert vs == [vs[0]] + vs[1..];
    }
  }

  /**
   Which file name belongs to an emoji: the hexadecimal numerals of its code points between dashes,
   where U+FE0F counts only if U+200D is among them.
   */
  lemma {:induction false} NameOfEmoji(vs: seq<nat>)
    requires AllScalar(vs)
    ensures IsIconName(GrabTheRightIcon(Encode(vs)), if 0x200D in vs then vs else Without(vs, 0xFE0F))
  {
    var kept := if 0x200D in vs then vs else Without(vs, 0xFE0F);
    EncodedUnit(vs, JOINER);
    EncodeWithout(vs, VARIATION);
    DecodeEncode(kept);
    ValuesRefineRfc(Encode(kept));
    IconNameExact(Icon(Encode(kept)), kept);
  }

  /** When two well-formed matches share an icon. */
  predicate SameEmoji(s: JsString, t: JsString) {
    if JOINER in s then s == t
    else JOINER !in t && Delete(s, VARIATION) == Delete(t, VARIATION)
  }

  /** Every high surrogate is the last unit or stands before a low one; lone low ones may be there. */
  predicate Paired(s: JsString) {
    forall i :: 0 <= i < |s| - 1 && IsHigh(s[i]) ==> IsLow(s[i + 1])
  }

  /** The text without a high surrogate at its end. */
  function Trim(s: JsString): JsString {
    if s != [] && IsHigh(s[|s| - 1]) then s[..|s| - 1] else s
  }

  lemma {:induction false} TrimStep(s: JsString, n: nat)
    requires n < |s|
    ensures Trim(s) == s[..n] + Trim(s[n..])
  {
  }

  lemma {:induction false} PairedRest(s: JsString, n: nat)
    requires Paired(s) && n <= |s|
    ensures Paired(s[n..])
  {
    var rest := s[n..];
    assert forall i :: 0 <= i < |rest| ==> rest[i] == s[n + i];
  }

  function Units(vs: seq<nat>): JsString {
    if vs == [] then [] else UnitsOf(vs[0]) + Units(vs[1..])
  }

  function UnitsOf(v: nat): JsString {
    if v < 0x10000 then [v] else if v <= 0x10FFFF then EncodeOne(v) else []
  }

  lemma {:induction false} UnitsStep(v: nat, vs: seq<nat>)
    ensures Units([v] + vs) == UnitsOf(v) + Units(vs)
  {
    assert ([v] + vs)[1..] == vs;
  }

  lemma {:induction false} PairUnits(h: CodeUnit, c: CodeUnit)
    requires IsHigh(h) && IsLow(c)
    ensures UnitsOf(Combine(h, c)) == [h, c]
  {
    PairEncodes(h, c);
    assert Combine(h, c) == PairValue(h, c);
  }

  /** On paired text the values lose nothing but a trailing high surrogate. */
  lemma {:induction false} PairedValues(s: JsString)
    requires Paired(s)
    ensures Units(Values(s, 0)) == Trim(s)
  {
    if |s| > 1 && IsHigh(s[0]) {
      PairedRest(s, 2);
      PairedValues(s[2..]);
      PairUnits(s[0], s[1]);
      UnitsStep(Combine(s[0], s[1]), Values(s[2..], 0));
      assert s[1..][1..] == s[2..];
      assert s[..2] == [s[0], s[1]];
      if |s| > 2 { TrimStep(s, 2); }
    } else if s != [] && !IsHigh(s[0]) {
      PairedRest(s, 1);
      PairedValues(s[1..]);
      UnitsStep(s[0], Values(s[1..], 0));
      assert s[..1] == [s[0]];
      if |s| > 1 { TrimStep(s, 1); }
    }
  }

  lemma {:induction false} TrimmedValues(s: JsString)
    requires Paired(s)
    ensures Paired(Trim(s)) && Trim(Trim(s)) == Trim(s) && Values(Trim(s), 0) == Values(s, 0)
  {
    if s != [] && IsHigh(s[|s| - 1]) {
      var t, h := Trim(s), s[|s| - 1];
      assert t != [] ==> !IsHigh(t[|t| - 1]);
      assert s == t + [h];
      ValuesConcat(t, [h], 0);
      NotPending(t);
      assert [h][1..] == [] && Values([h], 0) == [];
    }
  }

  lemma {:induction false} NotPending(s: JsString)
    requires Paired(s) && (s == [] || !IsHigh(s[|s| - 1]))
    ensures Pending(s, 0) == 0
  {
    if s != [] {
      if IsHigh(s[0]) {
        assert s[1..][1..] == s[2..] && Pending(s, 0) == Pending(s[2..], 0);
        PairedRest(s, 2);
        NotPending(s[2..]);
      } else {
        PairedRest(s, 1);
        NotPending(s[1..]);
      }
    }
  }

  lemma {:induction false} DeleteStart(s: JsString, u: CodeUnit)
    requires s != [] && s[0] != u
    ensures Delete(s, u) != [] && Delete(s, u)[0] == s[0]
  {
  }

  lemma {:induction false} PairedCons(c: CodeUnit, d: JsString)
    requires Paired(d) && (IsHigh(c) && d != [] ==> IsLow(d[0]))
    ensures Paired([c] + d)
  {
    var all := [c] + d;
    assert forall i :: 0 < i < |all| ==> all[i] == d[i - 1];
  }

  lemma {:induction false} DeleteKeepsPaired(s: JsString, u: CodeUnit)
    requires Paired(s) && !IsHigh(u) && !IsLow(u)
    ensures Paired(Delete(s, u)) && Trim(Delete(s, u)) == Delete(Trim(s), u)
  {
    if |s| == 1 {
      assert s[1..] == [] && Delete([], u) == [];
    } else if |s| > 1 {
      var d := Delete(s[1..], u);
      PairedRest(s, 1);
      DeleteKeepsPaired(s[1..], u);
      TrimStep(s, 1);
      if s[0] == u {
        assert Trim(s)[0] == u && Trim(s)[1..] == Trim(s[1..]);
      } else {
        if IsHigh(s[0]) { DeleteStart(s[1..], u); }
        PairedCons(s[0], d);
        DeleteTrimmed(s, d, u);
      }
    }
  }

  lemma {:induction false} DeleteTrimmed(s: JsString, d: JsString, u: CodeUnit)
    requires |s| > 1 && s[0] != u && d == Delete(s[1..], u) && Trim(d) == Delete(Trim(s[1..]), u)
    requires IsHigh(s[0]) ==> d != []
    ensures Trim([s[0]] + d) == Delete(Trim(s), u)
  {
    TrimStep(s, 1);
    var t := Trim(s[1..]);
    assert Trim(s) == [s[0]] + t;
    assert ([s[0]] + t)[1..] == t;
    TrimCons(s[0], d);
  }

  lemma {:induction false} TrimCons(c: CodeUnit, d: JsString)
    requires IsHigh(c) ==> d != []
    ensures Trim([c] + d) == [c] + Trim(d)
  {
    if d == [] {
      assert [c] + d == [c];
    } else {
      TrimStep([c] + d, 1);
      assert ([c] + d)[1..] == d && ([c] + d)[..1] == [c];
    }
  }

  /** On paired texts names agree exactly when the texts do but for a high surrogate at the end. */
  lemma {:induction false} PairedIcons(s: JsString, t: JsString)
    requires Paired(s) && Paired(t)
    ensures Icon(s) == Icon(t) <==> Trim(s) == Trim(t)
  {
    IconDeterminesValues(s, t);
    PairedValues(s);
    PairedValues(t);
    TrimmedValues(s);
    TrimmedValues(t);
  }

  /**
   The exact kernel of the naming, that is, which matches end up with the same picture, for all
   texts without an unpaired high surrogate inside.
   */
  lemma {:induction false} PairedKernel(s: JsString, t: JsString)
    requires Paired(s) && Paired(t)
    ensures GrabTheRightIcon(s) == GrabTheRightIcon(t) <==> SameEmoji(Trim(s), Trim(t))
  {
    SourcePaired(s);
    SourcePaired(t);
    PairedIcons(IconSource(s), IconSource(t));
  }

  lemma {:induction false} SourcePaired(s: JsString)
    requires Paired(s)
    ensures Paired(IconSource(s))
    ensures JOINER in Trim(s) <==> JOINER in Trim(IconSource(s))
    ensures Trim(IconSource(s)) == if JOINER in Trim(s) then Trim(s) else Delete(Trim(s), VARIATION)
  {
    assert JOINER in s <==> JOINER in Trim(s);
    DeleteKeepsPaired(s, VARIATION);
    DeleteRemoves(Trim(s), VARIATION);
  }

  lemma {:induction false} WellFormedIsPaired(s: JsString)
    requires WellFormed(s)
    ensures Paired(s) && Trim(s) == s
  {
    if s != [] {
      var n := if IsHigh(s[0]) then 2 else 1;
      WellFormedIsPaired(s[n..]);
      if |s| > n { TrimStep(s, n); }
      assert forall i :: n <= i < |s| ==> s[i] == s[n..][i - n];
    }
  }

  /** Two well-formed matches share a picture exactly when they differ in dropped selectors only. */
  lemma {:induction false} IconKernel(s: JsString, t: JsString)
    requires WellFormed(s) && WellFormed(t)
    ensures GrabTheRightIcon(s) == GrabTheRightIcon(t) <==> SameEmoji(s, t)
  {
    WellFormedIsPaired(s);
    WellFormedIsPaired(t);
    PairedKernel(s, t);
  }

  /** Well-formedness is needed: a trailing high surrogate leaves no trace in the name. */
  lemma {:induction false} TruncatedPairIsLost(s: JsString, h: CodeUnit)
    requires WellFormed(s) && JOINER !in s && VARIATION !in s && IsHigh(h)
    ensures GrabTheRightIcon(s + [h]) == GrabTheRightIcon(s) && !SameEmoji(s + [h], s)
  {
    DeleteNothing(s, VARIATION);
    DeleteNothing(s + [h], VARIATION);
    ValuesRefineRfc(s);
    ValuesConcat(s, [h], 0);
    assert [h][1..] == [] && Values([h], 0) == [];
    assert Values(s + [h], 0) == Values(s, 0);
    assert JOINER !in s + [h];
  }

  lemma {:induction false} DeleteNothing(s: JsString, u: CodeUnit)
    requires u !in s
    ensures Delete(s, u) == s
  {
    if s != [] { DeleteNothing(s[1..], u); }
  }

  /**
   For every text whatsoever the icon is empty exactly when nothing is left after deleting
   the variation selectors, or nothing but one high surrogate.
   */
  lemma {:induction false} EmptyIcon(s: JsString)
    ensures GrabTheRightIcon(s) == [] <==>
      Delete(s, VARIATION) == [] || (|Delete(s, VARIATION)| == 1 && IsHigh(Delete(s, VARIATION)[0]))
    ensures WellFormed(s) ==>
      (GrabTheRightIcon(s) == [] <==> forall i :: 0 <= i < |s| ==> s[i] == VARIATION)
  {
    var d := Delete(s, VARIATION);
    DeleteRemoves(s, VARIATION);
    ParsePrinted(Values(IconSource(s), 0));
    ValuesEmpty(IconSource(s));
    if JOINER in s { assert JOINER in d; }
    if WellFormed(s) {
      DeleteKeepsWellFormed(s, VARIATION);
      assert d == [] ==> forall i :: 0 <= i < |s| ==> s[i] in s && s[i] == VARIATION;
      assert d != [] ==> d[0] in d && d[0] in s && d[0] != VARIATION;
    }
  }
}
