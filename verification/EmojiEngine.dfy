/**
 The script itself: its two cache variables and the functions that update them in place,
 each proved against the value-level operations of StyleCaches.
 */
module EmojiEngines {
  import opened JsStrings
  import opened Rewriting
  import opened Styles
  import StyleCaches
  import opened Wrappers

  class EmojiEngine {
    const script: StyleCaches.Script
    var styleStatusCache: map<JsString, StyleStatus>
    var rasterSizesCache: map<JsString, RasterEntry>

    ghost function Caches(): StyleCaches.Caches
      reads this
    {
      StyleCaches.Caches(styleStatusCache, rasterSizesCache)
    }

    constructor (script: StyleCaches.Script)
      ensures this.script == script && Caches() == StyleCaches.EMPTY
    {
      this.script := script;
      styleStatusCache, rasterSizesCache := map[], map[];
    }

    method FlushCaches()
      modifies this
      ensures Caches() == StyleCaches.EMPTY
    {
      rasterSizesCache := map[];
      styleStatusCache := map[];
    }

    method GetStylePath(w: World, style: Style, rasterSize: Option<int>, noCache: bool) returns (r: StyleStatus)
      modifies this`styleStatusCache
      ensures (r, Caches()) == StyleCaches.GetStylePath(old(Caches()), w, style, rasterSize, noCache)
    {
      var cacheKey := CacheKey(style.key, rasterSize);
      if !noCache && cacheKey in styleStatusCache {
        return styleStatusCache[cacheKey];
      }
      if style.kind.System? {
        styleStatusCache := styleStatusCache[Js("undefined") := NOT_FOUND];
        return NOT_FOUND;
      }
      var i := 0;
      while i < |style.versions|
        invariant 0 <= i <= |style.versions|
        invariant Caches() == old(Caches())
        invariant FirstPresent(w, style, rasterSize, 0) == FirstPresent(w, style, rasterSize, i)
      {
        var path := VersionPath(w, style, rasterSize, style.versions[i]);
        if w.served(path + Js("/2764.") + style.ext) {
          styleStatusCache := styleStatusCache[cacheKey := StyleStatus(true, path, i == 0)];
          return styleStatusCache[cacheKey];
        }
        i := i + 1;
      }
      r := NOT_FOUND;
    }

    method IsInstalled(w: World, style: Style, noCache: bool) returns (code: int)
      modifies this`styleStatusCache
      ensures (code, Caches()) == StyleCaches.IsInstalled(old(Caches()), w, script.sizes, style, noCache)
    {
      if style.kind.System? { return 0; }
      var expectedSizes := ExpectedSizes(style, script.sizes);
      var missingCount, outdated, i := 0, false, 0;
      ghost var seen: seq<StyleStatus> := [];
      ghost var all := StyleCaches.GetStylePaths(Caches(), w, style, expectedSizes, noCache);
      assert expectedSizes[0..] == expectedSizes && seen + all.0 == all.0;
      while i < |expectedSizes|
        invariant 0 <= i <= |expectedSizes| && |seen| == i
        invariant missingCount == Missing(seen) && outdated == Outdated(seen)
        invariant all.0 == seen + StyleCaches.GetStylePaths(Caches(), w, style, expectedSizes[i..], noCache).0
        invariant all.1 == StyleCaches.GetStylePaths(Caches(), w, style, expectedSizes[i..], noCache).1
      {
        ghost var before := Caches();
        var checkPath := GetStylePath(w, style, expectedSizes[i], noCache);
        if !checkPath.found {
          missingCount := missingCount + 1;
        } else if !checkPath.uptodate {
          outdated := true;
        }
        assert (seen + [checkPath])[..i] == seen;
        PathsOneMore(seen, before, w, style, expectedSizes, i, noCache);
        seen := seen + [checkPath];
        i := i + 1;
      }
      assert expectedSizes[i..] == [] && seen + [] == seen;
      ClassifyIsCode(seen);
      code := Classify(missingCount, |expectedSizes|, outdated);
    }

    method GetParseSettings(w: World, style: Style, size: real, maxRasterSize: int, noGrow: bool, noCache: bool)
      returns (r: Settings)
      requires |script.sizes| > 0
      modifies this
      ensures (r, Caches()) ==
        StyleCaches.GetParseSettings(old(Caches()), w, script.sizes, style, size, maxRasterSize, noGrow, noCache)
    {
      var sourceSize, stylePath, useSystem, effectiveSize := -1, [], false, 0;
      effectiveSize := if noGrow then Round(size) else Round(1.15 * size);
      if style.kind.Raster? {
        if maxRasterSize > 0 { effectiveSize := maxRasterSize; }
        var cacheKey := CacheKey(style.key, Some(effectiveSize));
        if !noCache && cacheKey in rasterSizesCache {
          var cached := rasterSizesCache[cacheKey];
          sourceSize, stylePath, effectiveSize := cached.source, cached.path, cached.effective;
        } else {
          sourceSize, stylePath, effectiveSize := ChooseRaster(w, style, effectiveSize, noCache);
          rasterSizesCache := rasterSizesCache[cacheKey := RasterEntry(sourceSize, effectiveSize, stylePath)];
        }
      } else if style.kind.System? {
        useSystem := true;
      } else {
        var status := GetStylePath(w, style, None, noCache);
        stylePath := status.path;
      }
      if stylePath == [] { useSystem := true; }
      r := Settings(useSystem, stylePath, effectiveSize);
    }

    /** The raster size to take and the path to it, where the cache does not have them. */
    method ChooseRaster(w: World, style: Style, desired: int, noCache: bool)
      returns (sourceSize: int, stylePath: JsString, effectiveSize: int)
      requires |script.sizes| > 0
      modifies this`styleStatusCache
      ensures Choose(script.sizes, desired) == Choice(sourceSize, effectiveSize)
      ensures var r := StyleCaches.GetStylePath(old(Caches()), w, style, Some(sourceSize), noCache);
        stylePath == r.0.path && Caches() == r.1
    {
      effectiveSize := desired;
      if effectiveSize > script.sizes[0] { effectiveSize := script.sizes[0]; }
      sourceSize := SelectSource(effectiveSize);
      if sourceSize < 0 { sourceSize := script.sizes[|script.sizes| - 1]; }
      if effectiveSize > sourceSize { effectiveSize := sourceSize; }
      var status := GetStylePath(w, style, Some(sourceSize), noCache);
      stylePath := status.path;
    }

    /** The selection loop: the last listed size not below the wanted one, or -1. */
    method SelectSource(effectiveSize: int) returns (sourceSize: int)
      ensures sourceSize == LastAtLeast(script.sizes, effectiveSize)
    {
      sourceSize := -1;
      var i := 0;
      while i < |script.sizes|
        invariant 0 <= i <= |script.sizes|
        invariant sourceSize == LastAtLeast(script.sizes[..i], effectiveSize)
      {
        assert script.sizes[..i + 1][..i] == script.sizes[..i];
        if script.sizes[i] >= effectiveSize { sourceSize := script.sizes[i]; }
        i := i + 1;
      }
      assert script.sizes[..i] == script.sizes;
    }

    /** `parse`: None stands for an argument that is no style, and for the null answer to it. */
    method Parse(w: World, what: JsString, size: real, style: Option<Style>, noGrow: bool, maxRasterSize: int,
                 includePlain: bool, asMarkup: bool) returns (r: Option<Parsed>)
      requires |script.sizes| > 0
      modifies this
      ensures (if r.None? then StyleCaches.Null else StyleCaches.Rewritten(r.value), Caches()) ==
        StyleCaches.Step(script, w, old(Caches()),
          StyleCaches.Parse(what, size, style, noGrow, maxRasterSize, includePlain, asMarkup))
    {
      if style.None? { return None; }
      var settings := GetParseSettings(w, style.value, size, maxRasterSize, noGrow, false);
      var parsed := ParseString(script.pattern, what,
        StyleCaches.OptionsOf(settings, style.value, includePlain, asMarkup));
      r := Some(parsed);
    }

    method ParseAsMarkup(w: World, what: JsString, size: real, style: Option<Style>, noGrow: bool,
                         maxRasterSize: int) returns (r: Option<Parsed>)
      requires |script.sizes| > 0
      modifies this
      ensures (if r.None? then StyleCaches.Null else StyleCaches.Rewritten(r.value), Caches()) ==
        StyleCaches.Step(script, w, old(Caches()),
          StyleCaches.Parse(what, size, style, noGrow, maxRasterSize, true, true))
    {
      r := Parse(w, what, size, style, noGrow, maxRasterSize, true, true);
    }

    method ParseSingleUrl(w: World, what: JsString, size: real, style: Option<Style>, noGrow: bool,
                          maxRasterSize: int) returns (r: Option<Parsed>)
      requires |script.sizes| > 0
      modifies this
      ensures (if r.None? then StyleCaches.Null else StyleCaches.Rewritten(r.value), Caches()) ==
        StyleCaches.Step(script, w, old(Caches()),
          StyleCaches.Parse(what, size, style, noGrow, maxRasterSize, false, false))
    {
      r := Parse(w, what, size, style, noGrow, maxRasterSize, false, false);
    }

    /** One call of the script's interface. */
    method Dispatch(w: World, call: StyleCaches.Call) returns (answer: StyleCaches.Answer)
      requires |script.sizes| > 0
      modifies this
      ensures (answer, Caches()) == StyleCaches.Step(script, w, old(Caches()), call)
    {
      match call
      case StylePath(s, size, noCache) =>
        var status := GetStylePath(w, s, size, noCache);
        answer := StyleCaches.Status(status);
      case ParseSettings(s, wanted, maxRasterSize, noGrow, noCache) =>
        var settings := GetParseSettings(w, s, wanted, maxRasterSize, noGrow, noCache);
        answer := StyleCaches.SettingsFound(settings);
      case Installed(s, noCache) =>
        var code := IsInstalled(w, s, noCache);
        answer := StyleCaches.Code(code);
      case Parse(text, wanted, style, noGrow, maxRasterSize, includePlain, asMarkup) =>
        var parsed := Parse(w, text, wanted, style, noGrow, maxRasterSize, includePlain, asMarkup);
        answer := if parsed.None? then StyleCaches.Null else StyleCaches.Rewritten(parsed.value);
      case FlushCaches =>
        FlushCaches();
        answer := StyleCaches.Done;
    }

    /**
     A whole session on this engine, with the world changing between calls. Its answers are those of
     the modelled run; where the session keeps the discipline, they are those given without caches.
     */
    method Play(w: World, events: seq<StyleCaches.Event>, ghost styles: set<Style>)
      returns (answers: seq<StyleCaches.Answer>)
      requires |script.sizes| > 0
      modifies this
      ensures answers == StyleCaches.Run(script, w, old(Caches()), events)
      ensures Caches() == StyleCaches.After(script, w, old(Caches()), events)
      ensures StyleCaches.Suits(script, styles) && StyleCaches.StylesIn(events, styles)
        && StyleCaches.Disciplined(events, true) && StyleCaches.Agrees(script, w, old(Caches()), styles)
        ==> answers == StyleCaches.FreshRun(script, w, events)
    {
      answers := [];
      var world, i := w, 0;
      ghost var all := StyleCaches.Run(script, w, Caches(), events);
      assert events[0..] == events && [] + all == all;
      while i < |events|
        invariant 0 <= i <= |events|
        invariant all == answers + StyleCaches.Run(script, world, Caches(), events[i..])
        invariant StyleCaches.After(script, w, old(Caches()), events)
               == StyleCaches.After(script, world, Caches(), events[i..])
      {
        RunStep(script, world, Caches(), events, i);
        match events[i] {
          case Change(v) => world := v;
          case Do(call) =>
            var answer := Dispatch(world, call);
            answers := answers + [answer];
        }
        i := i + 1;
      }
      assert events[i..] == [] && answers + [] == answers;
      if StyleCaches.Suits(script, styles) && StyleCaches.StylesIn(events, styles)
        && StyleCaches.Disciplined(events, true) && StyleCaches.Agrees(script, w, old(Caches()), styles)
      {
        StyleCaches.CachesAreTransparent(script, w, old(Caches()), styles, events, true);
      }
    }
  }

  lemma {:induction false} RunStep(k: StyleCaches.Script, w: World, c: StyleCaches.Caches,
                                   events: seq<StyleCaches.Event>, i: nat)
    requires |k.sizes| > 0 && i < |events|
    ensures match events[i]
      case Change(v) =>
        && StyleCaches.Run(k, w, c, events[i..]) == StyleCaches.Run(k, v, c, events[i + 1..])
        && StyleCaches.After(k, w, c, events[i..]) == StyleCaches.After(k, v, c, events[i + 1..])
      case Do(call) =>
        var r := StyleCaches.Step(k, w, c, call);
        && StyleCaches.Run(k, w, c, events[i..]) == [r.0] + StyleCaches.Run(k, w, r.1, events[i + 1..])
        && StyleCaches.After(k, w, c, events[i..]) == StyleCaches.After(k, w, r.1, events[i + 1..])
  {
    assert events[i..][0] == events[i] && events[i..][1..] == events[i + 1..];
  }

  /** The closing case distinction of isInstalled. */
  function Classify(missingCount: int, expected: int, outdated: bool): int {
    if missingCount == expected then -1
    else if missingCount > 0 then if outdated then 3 else 1
    else if outdated then 2 else 0
  }

  function Missing(seen: seq<StyleStatus>): nat {
    if seen == [] then 0 else Missing(seen[..|seen| - 1]) + if seen[|seen| - 1].found then 0 else 1
  }

  function Outdated(seen: seq<StyleStatus>): bool {
    seen != [] &&
    (Outdated(seen[..|seen| - 1]) || (seen[|seen| - 1].found && !seen[|seen| - 1].uptodate))
  }

  lemma {:induction false} CountsMeasure(seen: seq<StyleStatus>)
    ensures Missing(seen) <= |seen|
    ensures Missing(seen) == |seen| <==> !SomeFound(seen)
    ensures Missing(seen) > 0 <==> SomeMissing(seen)
    ensures Outdated(seen) <==> SomeOutdated(seen)
  {
    if seen != [] {
      var before, s := seen[..|seen| - 1], seen[|seen| - 1];
      CountsMeasure(before);
      SeenOneMore(before, s);
      assert seen == before + [s];
    }
  }

  /** Counting missing sizes and noting outdated ones amounts to the two-bit code. */
  lemma {:induction false} ClassifyIsCode(seen: seq<StyleStatus>)
    ensures Classify(Missing(seen), |seen|, Outdated(seen)) == InstallCode(seen)
  {
    CountsMeasure(seen);
    if !SomeMissing(seen) && seen != [] { assert seen[0].found; }
  }

  lemma {:induction false} SeenOneMore(seen: seq<StyleStatus>, s: StyleStatus)
    ensures SomeFound(seen + [s]) <==> SomeFound(seen) || s.found
    ensures SomeMissing(seen + [s]) <==> SomeMissing(seen) || !s.found
    ensures SomeOutdated(seen + [s]) <==> SomeOutdated(seen) || (s.found && !s.uptodate)
  {
    var all := seen + [s];
    assert all[|seen|] == s;
    assert forall i :: 0 <= i < |seen| ==> all[i] == seen[i];
  }

  lemma {:induction false} PathsOneMore(seen: seq<StyleStatus>, c: StyleCaches.Caches, w: World, s: Style,
                     sizes: seq<Option<int>>, i: nat, noCache: bool)
    requires i < |sizes|
    ensures var all := StyleCaches.GetStylePaths(c, w, s, sizes[i..], noCache);
      var first := StyleCaches.GetStylePath(c, w, s, sizes[i], noCache);
      var rest := StyleCaches.GetStylePaths(first.1, w, s, sizes[i + 1..], noCache);
      seen + all.0 == (seen + [first.0]) + rest.0 && all.1 == rest.1
  {
    assert sizes[i..][0] == sizes[i] && sizes[i..][1..] == sizes[i + 1..];
  }
}
