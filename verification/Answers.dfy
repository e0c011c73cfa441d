/**
 What the script answers to its users, call by call and without caches, in terms of what is served
 where: from the wish for a size to the tag with the picture's file in it.
 */
module Answers {
  import opened JsStrings
  import opened Splitting
  import opened Utf16
  import opened IconNames
  import opened Rewriting
  import opened Pictures
  import opened Styles
  import opened StyleCaches
  import opened Wrappers

  // ---------- isInstalled ----------

  /** The answer for a raster style looks at every raster size, for a vector style at its one place. */
  lemma {:induction false} InstalledAnswer(k: Script, w: World, s: Style, noCache: bool)
    requires |k.sizes| > 0
    ensures FreshAnswer(k, w, Installed(s, noCache)) == Code(
      match s.kind
      case System => 0
      case Vector => if !Lookup(w, s, None).found then -1 else if Lookup(w, s, None).uptodate then 0 else 2
      case Raster =>
        if forall z :: z in k.sizes ==> IsMissing(w, s, z) then -1
        else ((if exists z :: z in k.sizes && IsMissing(w, s, z) then 1 else 0)
              + (if exists z :: z in k.sizes && IsOutdated(w, s, z) then 2 else 0)))
  {
    if s.kind.Raster? { RasterInstallCode(w, k.sizes, s); } else { OtherInstallCode(w, k.sizes, s); }
  }

  // ---------- getParseSettings ----------

  /** `z` is the least listed size at or above `n`, or the largest one where `n` is beyond all. */
  predicate IsSourceFor(sizes: seq<int>, n: int, z: int)
    requires |sizes| > 0
  {
    z in sizes && (n <= z || z == sizes[0]) && forall y :: y in sizes && y < z ==> y < n
  }

  /** For a wish that comes to `n`: which directory the pictures are taken from, and how large they are shown. */
  lemma {:induction false} SettingsAnswer(k: Script, w: World, s: Style, wanted: real, maxRasterSize: int,
                                          noGrow: bool, noCache: bool, n: int, z: int)
    requires DecreasingPositive(k.sizes) && IsDesiredSize(s, wanted, maxRasterSize, noGrow, n)
    requires IsSourceFor(k.sizes, n, z)
    ensures var answer := FreshAnswer(k, w, ParseSettings(s, wanted, maxRasterSize, noGrow, noCache));
      && answer.SettingsFound?
      && answer.settings.stylePath == (match s.kind
           case Raster => Lookup(w, s, Some(z)).path
           case Vector => Lookup(w, s, None).path
           case System => [])
      && (answer.settings.useSystem <==> answer.settings.stylePath == [])
      && answer.settings.effectiveSize == if s.kind.Raster? && z < n then z else n
  {
    EffectiveSizeExact(s, wanted, maxRasterSize, noGrow, n);
    if s.kind.Raster? {
      RasterSettings(w, k.sizes, s, wanted, maxRasterSize, noGrow, z);
    } else {
      OtherSettings(w, k.sizes, s, wanted, maxRasterSize, noGrow);
    }
  }

  // ---------- parse ----------

  /** The options `parse` works with, written out. */
  function ParseOptionsOf(k: Script, w: World, s: Style, wanted: real, noGrow: bool, maxRasterSize: int,
                          includePlain: bool, asMarkup: bool): Options
    requires |k.sizes| > 0
  {
    var r := FreshSettings(w, k.sizes, s, wanted, maxRasterSize, noGrow);
    Options(r.useSystem, r.stylePath, s.ext, r.effectiveSize, includePlain, asMarkup)
  }

  lemma {:induction false} ParseIsParsedText(k: Script, w: World, text: JsString, wanted: real, s: Style, noGrow: bool,
                                             maxRasterSize: int, includePlain: bool, asMarkup: bool)
    requires |k.sizes| > 0
    ensures FreshAnswer(k, w, Parse(text, wanted, Some(s), noGrow, maxRasterSize, includePlain, asMarkup)) == Rewritten(
      ParsedText(k.pattern, text, ParseOptionsOf(k, w, s, wanted, noGrow, maxRasterSize, includePlain, asMarkup)))
  {
  }

  /** Any one emoji of any text: its output stands where it stood, and all emoji are counted. */
  lemma {:induction false} ParseAnswer(k: Script, w: World, text: JsString, wanted: real, s: Style, noGrow: bool,
                                       maxRasterSize: int, includePlain: bool, asMarkup: bool,
                                       a: seq<Span>, at: Span, b: seq<Span>, vs: seq<nat>) returns (out: JsString)
    requires |k.sizes| > 0 && AllScalar(vs)
    requires Matches(k.pattern, text, 0) == a + [at] + b && at.End() <= |text| && text[at.start..at.End()] == Encode(vs)
    requires var o := ParseOptionsOf(k, w, s, wanted, noGrow, maxRasterSize, includePlain, asMarkup);
      asMarkup ==> QUOTE !in o.stylePath && QUOTE !in o.ext
    ensures InOrder(text[..at.start], a, 0) && InOrder(text, b, at.End())
    ensures var o := ParseOptionsOf(k, w, s, wanted, noGrow, maxRasterSize, includePlain, asMarkup);
      var answer := FreshAnswer(k, w, Parse(text, wanted, Some(s), noGrow, maxRasterSize, includePlain, asMarkup));
      && IsOutput(o, vs, Encode(vs), GrabTheRightIcon(Encode(vs)), out)
      && answer.Rewritten? && answer.parsed.emojiCount == |a| + 1 + |b|
      && answer.parsed.text == Splice(text[..at.start], a, raw => Emit(o, raw), 0) + out
                               + Splice(text, b, raw => Emit(o, raw), at.End())
  {
    var o := ParseOptionsOf(k, w, s, wanted, noGrow, maxRasterSize, includePlain, asMarkup);
    out := Emit(o, Encode(vs));
    ParseIsParsedText(k, w, text, wanted, s, noGrow, maxRasterSize, includePlain, asMarkup);
    assert o.asMarkup == asMarkup;
    EmitExact(o, vs, out);
    EachMatch(k.pattern, text, o, a, at, b);
  }

  lemma {:induction false} FileDirectories(w: World, s: Style, size: Option<int>, version: JsString, o: Options,
                                           icon: JsString)
    requires o.stylePath == RequestedPath(w, s, size, version) && o.ext == s.ext
    requires SLASH !in s.ext && SLASH !in icon
    ensures Split(PictureFile(o, icon), SLASH) == Directories(w, s, size, version) + [icon + Js(".") + s.ext]
  {
    var name := icon + Js(".") + s.ext;
    RequestedDirectories(w, s, size, version);
    assert Js("/") == [SLASH] && SLASH !in Js(".");
    SplitConcat(o.stylePath, name, SLASH);
    assert SLASH !in name;
    SplitFirst(name, [], SLASH);
    assert PictureFile(o, icon) == o.stylePath + [SLASH] + name;
  }

  /** Where a style is found: its earliest present version, in the directories documented for it. */
  predicate FoundAt(w: World, s: Style, size: Option<int>, i: nat) {
    && !s.kind.System? && i < |s.versions| && Present(w, s, size, i)
    && (forall j :: 0 <= j < i ==> !Present(w, s, size, j))
    && var p := RequestedPath(w, s, size, s.versions[i]); w.resolvedUrl(p) == Js("file://") + p
  }

  lemma {:induction false} FoundPath(w: World, s: Style, size: Option<int>, i: nat)
    requires FoundAt(w, s, size, i)
    ensures Lookup(w, s, size).path == RequestedPath(w, s, size, s.versions[i])
    ensures Lookup(w, s, size).path != []
  {
    LookupIsEarliest(w, s, size, i);
    FileUrlPath(w, s, size, s.versions[i]);
    assert Js("/") != [];
  }

  lemma {:induction false} IconUnslashed(vs: seq<nat>)
    ensures SLASH !in Join(Hexes(vs), [DASH])
  {
    IconUnits(vs);
    assert !IsDigit(SLASH);
  }

  /** The size that is looked for: the source size of a raster style, none for a vector style. */
  function SoughtSize(s: Style, z: int): Option<int> { if s.kind.Raster? then Some(z) else None }

  /** How a picture of a found style is made: by this size `n` wished for, source `z`, and version `i`. */
  predicate UsesVersion(k: Script, w: World, s: Style, wanted: real, maxRasterSize: int, noGrow: bool,
                        n: int, z: int, i: nat)
    requires |k.sizes| > 0
  {
    && DecreasingPositive(k.sizes) && IsDesiredSize(s, wanted, maxRasterSize, noGrow, n) && IsSourceFor(k.sizes, n, z)
    && FoundAt(w, s, SoughtSize(s, z), i)
  }

  /** The options `parse` then works with, written out. */
  function PictureOptions(w: World, s: Style, n: int, z: int, i: nat, includePlain: bool, asMarkup: bool): Options
    requires i < |s.versions|
  {
    Options(false, RequestedPath(w, s, SoughtSize(s, z), s.versions[i]), s.ext,
            if s.kind.Raster? && z < n then z else n, includePlain, asMarkup)
  }

  lemma {:induction false} ParseOptions(k: Script, w: World, text: JsString, wanted: real, s: Style, noGrow: bool,
                                        maxRasterSize: int, includePlain: bool, asMarkup: bool,
                                        n: int, z: int, i: nat)
    requires |k.sizes| > 0 && UsesVersion(k, w, s, wanted, maxRasterSize, noGrow, n, z, i)
    ensures FreshAnswer(k, w, Parse(text, wanted, Some(s), noGrow, maxRasterSize, includePlain, asMarkup))
         == Rewritten(ParsedText(k.pattern, text, PictureOptions(w, s, n, z, i, includePlain, asMarkup)))
  {
    FoundPath(w, s, SoughtSize(s, z), i);
    SettingsAnswer(k, w, s, wanted, maxRasterSize, noGrow, false, n, z);
  }

  /**
   From the emoji to its file: a text that is one emoji, in a style that is found, becomes the file
   `base/sailor-emoji/key/version/[size/]codepoints.ext`, alone or in a tag of the wanted size.
   */
  lemma {:induction false} ParsedPicture(k: Script, w: World, vs: seq<nat>, wanted: real, s: Style, noGrow: bool,
                                         maxRasterSize: int, includePlain: bool, asMarkup: bool,
                                         n: int, z: int, i: nat) returns (file: JsString, icon: JsString)
    requires |k.sizes| > 0 && UsesVersion(k, w, s, wanted, maxRasterSize, noGrow, n, z, i) && SLASH !in s.ext
    requires AllScalar(vs) && Matches(k.pattern, Encode(vs), 0) == [Span(0, |Encode(vs)|)]
    requires (if 0x200D in vs then vs else Without(vs, 0xFE0F)) != []
    requires asMarkup ==> QUOTE !in RequestedPath(w, s, SoughtSize(s, z), s.versions[i]) && QUOTE !in s.ext
    ensures IsIconName(icon, if 0x200D in vs then vs else Without(vs, 0xFE0F))
    ensures Split(file, SLASH) == Directories(w, s, SoughtSize(s, z), s.versions[i]) + [icon + Js(".") + s.ext]
    ensures var answer :=
        FreshAnswer(k, w, Parse(Encode(vs), wanted, Some(s), noGrow, maxRasterSize, includePlain, asMarkup));
      && answer.Rewritten? && answer.parsed.emojiCount == 1
      && if asMarkup then IsPicture(answer.parsed.text, file, if s.kind.Raster? && z < n then z else n)
         else answer.parsed.text == file
  {
    var o := PictureOptions(w, s, n, z, i, includePlain, asMarkup);
    icon := GrabTheRightIcon(Encode(vs));
    file := PictureFile(o, icon);
    ParseOptions(k, w, Encode(vs), wanted, s, noGrow, maxRasterSize, includePlain, asMarkup, n, z, i);
    OneEmoji(k.pattern, o, vs);
    EmitByName(o, vs);
    IconUnslashed(if 0x200D in vs then vs else Without(vs, 0xFE0F));
    FileDirectories(w, s, SoughtSize(s, z), s.versions[i], o, icon);
  }
}
