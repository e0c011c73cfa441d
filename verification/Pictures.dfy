/**
 What the engine puts in place of an emoji, read back from the outside: the parts of the image tag,
 the file it names, and which emoji share it.
 */
module Pictures {
  import opened JsStrings
  import opened Splitting
  import opened Utf16
  import opened IconNames
  import opened Rewriting

  // ---------- What a picture reference says ----------

  const QUOTE: CodeUnit := 0x22

  /** The parts of an image tag between its quotes: nine of them, with source, width and height. */
  predicate IsPicture(markup: JsString, src: JsString, size: int) {
    var parts := Split(markup, QUOTE);
    && |parts| == 9
    && parts[0] == Js("<img src=") && parts[1] == src
    && parts[2] == Js(" align=") && parts[3] == Js("middle")
    && parts[4] == Js(" width=") && IsNumber(parts[5], size)
    && parts[6] == Js(" height=") && IsNumber(parts[7], size)
    && parts[8] == Js("/>")
  }

  lemma {:induction false} NumberUnquoted(n: int)
    ensures QUOTE !in NumberString(n)
  {
    assert !IsDigit(QUOTE);
  }

  /** Whatever the source, the tag is these parts between quotes. */
  lemma {:induction false} MarkupParts(o: Options, src: JsString)
    ensures var n := NumberString(o.size);
      Markup(o, src) == Join([Js("<img src="), src, Js(" align="), Js("middle"), Js(" width="), n,
                              Js(" height="), n, Js("/>")], [QUOTE])
  {
    var n, q := NumberString(o.size), [QUOTE];
    var a, b, c := Js("<img src="), Js(" align="), Js("middle");
    var w, h, e := Js(" width="), Js(" height="), Js("/>");
    JoinCons(n, [e], q);
    JoinCons(h, [n, e], q);
    JoinCons(n, [h, n, e], q);
    JoinCons(w, [n, h, n, e], q);
    JoinCons(c, [w, n, h, n, e], q);
    JoinCons(b, [c, w, n, h, n, e], q);
    JoinCons(src, [b, c, w, n, h, n, e], q);
    JoinCons(a, [src, b, c, w, n, h, n, e], q);
    MarkupText(o, src, n);
  }

  predicate Ascii(s: string) { forall i :: 0 <= i < |s| ==> s[i] as int < 0x80 }

  lemma {:induction false} JsWhole(whole: string, a: string, b: string)
    requires Ascii(a) && Ascii(b) && whole == a + b
    ensures Ascii(whole) && Js(whole) == Js(a) + Js(b)
  {
  }

  lemma {:induction false} AlignLiteral()
    ensures Js("\" align=\"middle\" width=\"")
         == [QUOTE] + Js(" align=") + [QUOTE] + Js("middle") + [QUOTE] + Js(" width=") + [QUOTE]
  {
    AlignStart();
    AlignEnd();
    JsWhole("\" align=\"middle\" width=\"", "\" align=\"middle", "\" width=\"");
    var a := [QUOTE] + Js(" align=") + [QUOTE] + Js("middle");
    assert a + ([QUOTE] + Js(" width=") + [QUOTE]) == a + [QUOTE] + Js(" width=") + [QUOTE];
  }

  lemma {:induction false} AlignStart()
    ensures Js("\" align=\"middle") == [QUOTE] + Js(" align=") + [QUOTE] + Js("middle")
  {
    assert Js("\"") == [QUOTE];
    JsWhole("\" align=", "\"", " align=");
    JsWhole("\" align=\"", "\" align=", "\"");
    JsWhole("\" align=\"middle", "\" align=\"", "middle");
  }

  lemma {:induction false} AlignEnd()
    ensures Js("\" width=\"") == [QUOTE] + Js(" width=") + [QUOTE]
  {
    assert Js("\"") == [QUOTE];
    JsWhole("\" width=", "\"", " width=");
    JsWhole("\" width=\"", "\" width=", "\"");
  }

  lemma {:induction false} TagLiterals()
    ensures Js("<img ") + Js("src=\"") == Js("<img src=") + [QUOTE]
    ensures Js("\" height=\"") == [QUOTE] + Js(" height=") + [QUOTE]
    ensures Js("\"/>") == [QUOTE] + Js("/>")
  {
    assert Js("\"") == [QUOTE];
    assert Js("<img ") + Js("src=\"") == Js("<img src=\"") by { JsWhole("<img src=\"", "<img ", "src=\""); }
    JsWhole("<img src=\"", "<img src=", "\"");
    JsWhole("\" height=", "\"", " height=");
    JsWhole("\" height=\"", "\" height=", "\"");
    JsWhole("\"/>", "\"", "/>");
  }

  lemma {:induction false} MarkupText(o: Options, src: JsString, n: JsString)
    requires n == NumberString(o.size)
    ensures var q, a, b, c := [QUOTE], Js("<img src="), Js(" align="), Js("middle");
      var w, h, e := Js(" width="), Js(" height="), Js("/>");
      Markup(o, src)
        == a + (q + (src + (q + (b + (q + (c + (q + (w + (q + (n + (q + (h + (q + (n + (q + e)))))))))))))))
  {
    TagLiterals();
    AlignLiteral();
    Flattened([QUOTE], Js("<img src="), src, Js(" align="), Js("middle"), Js(" width="), n, Js(" height="), Js("/>"));
  }

  lemma {:induction false} Flattened(q: JsString, a: JsString, src: JsString, b: JsString, c: JsString, w: JsString,
                                     n: JsString, h: JsString, e: JsString)
    ensures (a + q) + src + (q + b + q + c + q + w + q) + n + (q + h + q) + n + (q + e)
      == a + (q + (src + (q + (b + (q + (c + (q + (w + (q + (n + (q + (h + (q + (n + (q + e)))))))))))))))
  {
    var x, y, z := q + b + q + c + q + w + q, q + h + q, q + e;
    var r := n + (y + (n + z));
    RightToLeft(a + q, src, x, n, y, n, z);
    Grouped3(q, h, q, n + z);
    Grouped7(q, b, q, c, q, w, q, r);
    Grouped2(a, q, src + (x + r));
  }

  lemma {:induction false} Grouped2(a: JsString, b: JsString, rest: JsString)
    ensures a + b + rest == a + (b + rest)
  {
  }

  lemma {:induction false} RightToLeft(a: JsString, b: JsString, c: JsString, d: JsString, e: JsString, f: JsString,
                                       g: JsString)
    ensures a + b + c + d + e + f + g == a + (b + (c + (d + (e + (f + g)))))
  {
    assert a + b + c + d + e + f + g == a + b + c + d + e + (f + g);
    assert a + b + c + d + e + (f + g) == a + b + c + d + (e + (f + g));
    assert a + b + c + d + (e + (f + g)) == a + b + c + (d + (e + (f + g)));
    assert a + b + c + (d + (e + (f + g))) == a + b + (c + (d + (e + (f + g))));
    assert a + b + (c + (d + (e + (f + g)))) == a + (b + (c + (d + (e + (f + g)))));
  }

  lemma {:induction false} Grouped3(a: JsString, b: JsString, c: JsString, rest: JsString)
    ensures a + b + c + rest == a + (b + (c + rest))
  {
  }

  lemma {:induction false} Grouped7(a: JsString, b: JsString, c: JsString, d: JsString, e: JsString, f: JsString,
                                    g: JsString, rest: JsString)
    ensures a + b + c + d + e + f + g + rest == a + (b + (c + (d + (e + (f + (g + rest))))))
  {
    RightToLeft(a, b, c, d, e, f, g + rest);
    assert a + b + c + d + e + f + g + rest == a + b + c + d + e + f + (g + rest);
  }

  /** The tag of a source without a quote is the one text that reads as that source in the wanted size. */
  lemma {:induction false} PictureExact(o: Options, src: JsString, markup: JsString)
    requires QUOTE !in src
    ensures IsPicture(markup, src, o.size) <==> markup == Markup(o, src)
  {
    var n := NumberString(o.size);
    var parts := [Js("<img src="), src, Js(" align="), Js("middle"), Js(" width="), n, Js(" height="), n, Js("/>")];
    MarkupParts(o, src);
    NumberUnquoted(o.size);
    SplitJoin(parts, QUOTE);
    JoinSplit(markup, QUOTE);
    NumberExact(n, o.size);
    if IsPicture(markup, src, o.size) {
      var read := Split(markup, QUOTE);
      NumberExact(read[5], o.size);
      NumberExact(read[7], o.size);
      assert read == parts;
    }
  }

  // ---------- What becomes of an emoji ----------

  /** The file of an emoji: its name and the style's extension, in the style's directory. */
  function PictureFile(o: Options, icon: JsString): JsString {
    o.stylePath + Js("/") + icon + Js(".") + o.ext
  }

  /**
   What an emoji with these code points is replaced by: if a style is available and there is more to it
   than selectors, by the file with its name, as a tag or alone; otherwise it is kept or dropped.
   */
  predicate IsOutput(o: Options, vs: seq<nat>, raw: JsString, icon: JsString, out: JsString) {
    var kept := if 0x200D in vs then vs else Without(vs, 0xFE0F);
    if o.useSystem || kept == [] then out == if o.includePlain then raw else []
    else
      && IsIconName(icon, kept)
      && (if o.asMarkup then IsPicture(out, PictureFile(o, icon), o.size) else out == PictureFile(o, icon))
  }

  /** Icon names are hexadecimal digits and dashes. */
  lemma {:induction false} IconUnits(vs: seq<nat>)
    ensures forall u :: u in Join(Hexes(vs), [DASH]) ==> IsDigit(u) || u == DASH
  {
    if |vs| == 1 {
      assert Hexes(vs) == [Radix(vs[0], 16)];
    } else if vs != [] {
      IconUnits(vs[1..]);
      assert Hexes(vs)[1..] == Hexes(vs[1..]);
    }
  }

  lemma {:induction false} EmitByName(o: Options, vs: seq<nat>)
    requires AllScalar(vs)
    ensures var raw := Encode(vs);
      var kept, src := if 0x200D in vs then vs else Without(vs, 0xFE0F), PictureFile(o, GrabTheRightIcon(raw));
      && IsIconName(GrabTheRightIcon(raw), kept)
      && (GrabTheRightIcon(raw) == Join(Hexes(kept), [DASH]))
      && Emit(o, raw) ==
           if o.useSystem || kept == [] then if o.includePlain then raw else []
           else if o.asMarkup then Markup(o, src) else src
  {
    var kept := if 0x200D in vs then vs else Without(vs, 0xFE0F);
    NameOfEmoji(vs);
    IconNameExact(GrabTheRightIcon(Encode(vs)), kept);
    ParsePrinted(kept);
    assert PictureFile(o, GrabTheRightIcon(Encode(vs))) != [];
  }

  lemma {:induction false} PictureFileUnquoted(o: Options, vs: seq<nat>)
    requires QUOTE !in o.stylePath && QUOTE !in o.ext
    ensures QUOTE !in PictureFile(o, Join(Hexes(vs), [DASH]))
  {
    IconUnits(vs);
    assert QUOTE !in Js("/") && QUOTE !in Js(".") && !IsDigit(QUOTE);
  }

  /** There is exactly one output for each emoji, the one the callback returns. */
  lemma {:induction false} EmitExact(o: Options, vs: seq<nat>, out: JsString)
    requires AllScalar(vs) && (o.asMarkup ==> QUOTE !in o.stylePath && QUOTE !in o.ext)
    ensures Emit(o, Encode(vs)) == out <==> IsOutput(o, vs, Encode(vs), GrabTheRightIcon(Encode(vs)), out)
  {
    var kept := if 0x200D in vs then vs else Without(vs, 0xFE0F);
    EmitByName(o, vs);
    if o.asMarkup {
      PictureFileUnquoted(o, kept);
      PictureExact(o, PictureFile(o, Join(Hexes(kept), [DASH])), out);
    }
  }

  /** A text that is one emoji becomes its file, alone or in a tag. */
  lemma {:induction false} OneEmoji(m: Pattern, o: Options, vs: seq<nat>)
    requires AllScalar(vs) && Matches(m, Encode(vs), 0) == [Span(0, |Encode(vs)|)] && !o.useSystem
    requires (if 0x200D in vs then vs else Without(vs, 0xFE0F)) != []
    requires o.asMarkup ==> QUOTE !in o.stylePath && QUOTE !in o.ext
    ensures var r, file := ParsedText(m, Encode(vs), o), PictureFile(o, GrabTheRightIcon(Encode(vs)));
      && r.emojiCount == 1
      && if o.asMarkup then IsPicture(r.text, file, o.size) else r.text == file
  {
    WholeMatch(m, o, Encode(vs));
    EmitExact(o, vs, Emit(o, Encode(vs)));
  }

  /** Selectors alone are no picture. */
  predicate OnlySelectors(s: JsString) { forall i :: 0 <= i < |s| ==> s[i] == VARIATION }

  lemma {:induction false} SamePicture(o: Options, i: JsString, j: JsString)
    ensures PictureFile(o, i) == PictureFile(o, j) <==> i == j
    ensures Markup(o, PictureFile(o, i)) == Markup(o, PictureFile(o, j)) <==> i == j
  {
    var pre, post := o.stylePath + Js("/"), Js(".") + o.ext;
    assert PictureFile(o, i) == pre + i + post && PictureFile(o, j) == pre + j + post;
    SameInfix(pre, i, j, post);
    var n := NumberString(o.size);
    var before := Js("<img ") + Js("src=\"");
    var behind := Js("\" align=\"middle\" width=\"") + n + Js("\" height=\"") + n + Js("\"/>");
    TagAround(o, PictureFile(o, i));
    TagAround(o, PictureFile(o, j));
    SameInfix(before, PictureFile(o, i), PictureFile(o, j), behind);
  }

  lemma {:induction false} TagAround(o: Options, src: JsString)
    ensures var n := NumberString(o.size);
      Markup(o, src) == Js("<img ") + Js("src=\"") + src
                        + (Js("\" align=\"middle\" width=\"") + n + Js("\" height=\"") + n + Js("\"/>"))
  {
    var n, a, b := NumberString(o.size), Js("\" align=\"middle\" width=\""), Js("\" height=\"");
    var e := Js("\"/>");
    var left := Js("<img ") + Js("src=\"") + src;
    Grouped5(left, a, n, b, n, e);
  }

  lemma {:induction false} Grouped5(left: JsString, a: JsString, b: JsString, c: JsString, d: JsString, e: JsString)
    ensures left + a + b + c + d + e == left + (a + b + c + d + e)
  {
    Grouped2(left, a, b);
    Grouped2(left, a + b, c);
    Grouped2(left, a + b + c, d);
    Grouped2(left, a + b + c + d, e);
  }

  /**
   For texts that are one emoji: whatever the options, as long as a style is available, the same
   output is given to exactly the variants of one emoji, be it a tag or a bare file. Texts of
   selectors only are no pictures, and agree as they are kept or dropped.
   */
  lemma {:induction false} OneEmojiKernel(m: Pattern, o: Options, s: JsString, t: JsString)
    requires !o.useSystem && WellFormed(s) && WellFormed(t)
    requires Matches(m, s, 0) == [Span(0, |s|)] && Matches(m, t, 0) == [Span(0, |t|)]
    ensures ParsedText(m, s, o).text == ParsedText(m, t, o).text <==>
      if OnlySelectors(s) && OnlySelectors(t) then !o.includePlain || s == t else SameEmoji(s, t)
  {
    WholeMatch(m, o, s);
    WholeMatch(m, o, t);
    EmitCases(o, s);
    EmitCases(o, t);
    IconKernel(s, t);
    EmptyIcon(s);
    EmptyIcon(t);
    var i, j := GrabTheRightIcon(s), GrabTheRightIcon(t);
    SamePicture(o, i, j);
    PictureIsNoSelector(o, i);
    PictureIsNoSelector(o, j);
  }

  lemma {:induction false} PictureIsNoSelector(o: Options, icon: JsString)
    ensures !OnlySelectors(PictureFile(o, icon)) && !OnlySelectors(Markup(o, PictureFile(o, icon)))
    ensures PictureFile(o, icon) != [] && Markup(o, PictureFile(o, icon)) != []
  {
    var f := PictureFile(o, icon);
    assert f[|o.stylePath|] == Js("/")[0];
    TagAround(o, f);
    assert Markup(o, f)[0] == Js("<img ")[0];
  }
}
