/**
 The two caches of the emoji engine as values: what each operation answers and leaves behind,
 and what the caches can and cannot do to the answers of a whole run.
 */
module StyleCaches {
  import opened JsStrings
  import opened Rewriting
  import opened Styles
  import opened Wrappers

  /** `styleStatusCache` and `rasterSizesCache`; the second stores results obtained through the first. */
  datatype Caches = Caches(status: map<JsString, StyleStatus>, raster: map<JsString, RasterEntry>)

  const EMPTY := Caches(map[], map[])

  // ---------- One operation ----------

  function GetStylePath(c: Caches, w: World, s: Style, size: Option<int>, noCache: bool): (StyleStatus, Caches) {
    var key := CacheKey(s.key, size);
    if !noCache && key in c.status then (c.status[key], c)
    else if s.kind.System? then (NOT_FOUND, c.(status := c.status[StrayKey() := NOT_FOUND]))
    else
      var r := Lookup(w, s, size);
      (r, if r.found then c.(status := c.status[key := r]) else c)
  }

  /** A search for the system style finds nothing, and leaves only the stray entry behind. */
  lemma {:induction false} SystemStyleStrays(c: Caches, w: World, s: Style, size: Option<int>, noCache: bool,
                                             key: JsString)
    requires s.kind.System? && (noCache || CacheKey(s.key, size) !in c.status)
    ensures var r := GetStylePath(c, w, s, size, noCache);
      && r.0 == StyleStatus(false, [], true) && r.1.raster == c.raster
      && (key in r.1.status <==> key in c.status || key == Js("undefined"))
      && (key in r.1.status ==>
            r.1.status[key] == if key == Js("undefined") then StyleStatus(false, [], true) else c.status[key])
  {
  }

  function GetStylePaths(c: Caches, w: World, s: Style, sizes: seq<Option<int>>, noCache: bool)
    : (r: (seq<StyleStatus>, Caches))
    ensures |r.0| == |sizes|
    decreases |sizes|
  {
    if sizes == [] then ([], c)
    else
      var first := GetStylePath(c, w, s, sizes[0], noCache);
      var rest := GetStylePaths(first.1, w, s, sizes[1..], noCache);
      ([first.0] + rest.0, rest.1)
  }

  function IsInstalled(c: Caches, w: World, sizes: seq<int>, s: Style, noCache: bool): (int, Caches) {
    if s.kind.System? then (0, c)
    else
      var r := GetStylePaths(c, w, s, ExpectedSizes(s, sizes), noCache);
      (InstallCode(r.0), r.1)
  }

  function GetParseSettings(c: Caches, w: World, sizes: seq<int>, s: Style, size: real,
                            maxRasterSize: int, noGrow: bool, noCache: bool): (Settings, Caches)
    requires |sizes| > 0
  {
    var desired := EffectiveSize(s, size, maxRasterSize, noGrow);
    match s.kind
    case System => (Settings(true, [], desired), c)
    case Vector =>
      var r := GetStylePath(c, w, s, None, noCache);
      (SettingsOf(r.0.path, desired), r.1)
    case Raster =>
      var key := CacheKey(s.key, Some(desired));
      if !noCache && key in c.raster then (SettingsOf(c.raster[key].path, c.raster[key].effective), c)
      else
        var choice := Choose(sizes, desired);
        var r := GetStylePath(c, w, s, Some(choice.source), noCache);
        var entry := RasterEntry(choice.source, choice.effective, r.0.path);
        (SettingsOf(entry.path, entry.effective), r.1.(raster := r.1.raster[key := entry]))
  }

  function OptionsOf(settings: Settings, s: Style, includePlain: bool, asMarkup: bool): Options {
    Options(settings.useSystem, settings.stylePath, s.ext, settings.effectiveSize, includePlain, asMarkup)
  }

  // ---------- Runs ----------

  /** A call of the script's interface; `parse` with None is a call with something that is no style. */
  datatype Call =
    | StylePath(s: Style, size: Option<int>, noCache: bool)
    | ParseSettings(s: Style, wanted: real, maxRasterSize: int, noGrow: bool, noCache: bool)
    | Installed(s: Style, noCache: bool)
    | Parse(text: JsString, wanted: real, style: Option<Style>, noGrow: bool, maxRasterSize: int,
            includePlain: bool, asMarkup: bool)
    | FlushCaches

  datatype Answer =
    | Status(status: StyleStatus)
    | SettingsFound(settings: Settings)
    | Code(code: int)
    | Null
    | Rewritten(parsed: Parsed)
    | Done

  datatype Event = Do(call: Call) | Change(world: World)

  /** The fixed parts of the script: the emoji pattern and the raster sizes. */
  datatype Script = Script(pattern: Pattern, sizes: seq<int>)

  function Step(k: Script, w: World, c: Caches, call: Call): (Answer, Caches)
    requires |k.sizes| > 0
  {
    match call
    case StylePath(s, size, noCache) =>
      var r := GetStylePath(c, w, s, size, noCache); (Status(r.0), r.1)
    case ParseSettings(s, wanted, maxRasterSize, noGrow, noCache) =>
      var r := GetParseSettings(c, w, k.sizes, s, wanted, maxRasterSize, noGrow, noCache);
      (SettingsFound(r.0), r.1)
    case Installed(s, noCache) =>
      var r := IsInstalled(c, w, k.sizes, s, noCache); (Code(r.0), r.1)
    case Parse(text, wanted, style, noGrow, maxRasterSize, includePlain, asMarkup) =>
      if style.None? then (Null, c)
      else
        var r := GetParseSettings(c, w, k.sizes, style.value, wanted, maxRasterSize, noGrow, false);
        (Rewritten(ParsedText(k.pattern, text, OptionsOf(r.0, style.value, includePlain, asMarkup))), r.1)
    case FlushCaches => (Done, EMPTY)
  }

  /** What the same call answers when there are no caches at all. */
  function FreshAnswer(k: Script, w: World, call: Call): Answer
    requires |k.sizes| > 0
  {
    match call
    case StylePath(s, size, _) => Status(Lookup(w, s, size))
    case ParseSettings(s, wanted, maxRasterSize, noGrow, _) =>
      SettingsFound(FreshSettings(w, k.sizes, s, wanted, maxRasterSize, noGrow))
    case Installed(s, _) => Code(FreshInstallCode(w, k.sizes, s))
    case Parse(text, wanted, style, noGrow, maxRasterSize, includePlain, asMarkup) =>
      if style.None? then Null
      else
        var settings := FreshSettings(w, k.sizes, style.value, wanted, maxRasterSize, noGrow);
        Rewritten(ParsedText(k.pattern, text, OptionsOf(settings, style.value, includePlain, asMarkup)))
    case FlushCaches => Done
  }

  function Run(k: Script, w: World, c: Caches, events: seq<Event>): seq<Answer>
    requires |k.sizes| > 0
    decreases |events|
  {
    if events == [] then []
    else match events[0]
      case Change(v) => Run(k, v, c, events[1..])
      case Do(call) => var r := Step(k, w, c, call); [r.0] + Run(k, w, r.1, events[1..])
  }

  function FreshRun(k: Script, w: World, events: seq<Event>): seq<Answer>
    requires |k.sizes| > 0
    decreases |events|
  {
    if events == [] then []
    else match events[0]
      case Change(v) => FreshRun(k, v, events[1..])
      case Do(call) => [FreshAnswer(k, w, call)] + FreshRun(k, w, events[1..])
  }

  /** The caches a run leaves behind. */
  function After(k: Script, w: World, c: Caches, events: seq<Event>): Caches
    requires |k.sizes| > 0
    decreases |events|
  {
    if events == [] then c
    else match events[0]
      case Change(v) => After(k, v, c, events[1..])
      case Do(call) => After(k, w, Step(k, w, c, call).1, events[1..])
  }

  // ---------- The joint invariant ----------

  /** Both caches hold, for every style of the set and admissible size, what a fresh search would find. */
  ghost predicate Agrees(k: Script, w: World, c: Caches, styles: set<Style>)
    requires |k.sizes| > 0
  {
    && StatusAgrees(w, c, styles)
    && RasterAgrees(k, w, c, styles)
  }

  ghost predicate StatusAgrees(w: World, c: Caches, styles: set<Style>) {
    forall s, size {:trigger CacheKey(s.key, size)} {:trigger Lookup(w, s, size)} ::
      s in styles && Admissible(styles, s, size) && CacheKey(s.key, size) in c.status ==>
        c.status[CacheKey(s.key, size)] == Lookup(w, s, size)
  }

  ghost predicate RasterAgrees(k: Script, w: World, c: Caches, styles: set<Style>)
    requires |k.sizes| > 0
  {
    forall s, d {:trigger FreshEntry(w, k.sizes, s, d)} {:trigger CacheKey(s.key, Some(d))} ::
      s in styles && s.kind.Raster? && Admissible(styles, s, Some(d)) && CacheKey(s.key, Some(d)) in c.raster ==>
        c.raster[CacheKey(s.key, Some(d))] == FreshEntry(w, k.sizes, s, d)
  }

  /** Unique keys, and the script's own sizes are admissible, as positive sizes always are. */
  ghost predicate Suits(k: Script, styles: set<Style>) {
    && UniqueKeys(styles)
    && |k.sizes| > 0
    && forall s, z :: s in styles && s.kind.Raster? && z in k.sizes ==> Admissible(styles, s, Some(z))
  }

  /** A wish for a raster style whose effective size, which becomes part of a key, is admissible. */
  ghost predicate SizeFits(styles: set<Style>, s: Style, wanted: real, maxRasterSize: int, noGrow: bool) {
    s.kind.Raster? ==> Admissible(styles, s, Some(EffectiveSize(s, wanted, maxRasterSize, noGrow)))
  }

  lemma {:induction false} StylePathFresh(w: World, c: Caches, styles: set<Style>, s: Style,
                                          size: Option<int>, noCache: bool)
    requires UniqueKeys(styles) && s in styles && Admissible(styles, s, size)
    ensures noCache || StatusAgrees(w, c, styles) ==> GetStylePath(c, w, s, size, noCache).0 == Lookup(w, s, size)
    ensures StatusAgrees(w, c, styles) ==> StatusAgrees(w, GetStylePath(c, w, s, size, noCache).1, styles)
    ensures GetStylePath(c, w, s, size, noCache).1.raster == c.raster
  {
    var after := GetStylePath(c, w, s, size, noCache).1;
    if StatusAgrees(w, c, styles) {
      forall t, z | t in styles && Admissible(styles, t, z) && CacheKey(t.key, z) in after.status
        ensures after.status[CacheKey(t.key, z)] == Lookup(w, t, z)
      {
        StrayKeyIsNoCacheKey(t.key, z);
        if Lookup(w, s, size).found {
          FoundIsSearchable(w, s, size);
          KeysIdentify(styles, s, size, t, z);
        }
      }
    }
  }

  lemma {:induction false} StylePathsFresh(w: World, c: Caches, styles: set<Style>, s: Style,
                                           sizes: seq<Option<int>>, noCache: bool)
    requires UniqueKeys(styles) && s in styles
    requires forall i :: 0 <= i < |sizes| ==> Admissible(styles, s, sizes[i])
    ensures noCache || StatusAgrees(w, c, styles) ==>
      GetStylePaths(c, w, s, sizes, noCache).0 == FreshStatuses(w, s, sizes)
    ensures StatusAgrees(w, c, styles) ==> StatusAgrees(w, GetStylePaths(c, w, s, sizes, noCache).1, styles)
    ensures GetStylePaths(c, w, s, sizes, noCache).1.raster == c.raster
    decreases |sizes|
  {
    if sizes != [] {
      StylePathFresh(w, c, styles, s, sizes[0], noCache);
      StylePathsFresh(w, GetStylePath(c, w, s, sizes[0], noCache).1, styles, s, sizes[1..], noCache);
    }
  }

  lemma {:induction false} SettingsFresh(k: Script, w: World, c: Caches, styles: set<Style>, s: Style, wanted: real,
                      maxRasterSize: int, noGrow: bool, noCache: bool)
    requires Suits(k, styles) && s in styles
    requires SizeFits(styles, s, wanted, maxRasterSize, noGrow)
    ensures var r := GetParseSettings(c, w, k.sizes, s, wanted, maxRasterSize, noGrow, noCache);
      && (noCache || Agrees(k, w, c, styles) ==> r.0 == FreshSettings(w, k.sizes, s, wanted, maxRasterSize, noGrow))
      && (Agrees(k, w, c, styles) ==> Agrees(k, w, r.1, styles))
  {
    var desired := EffectiveSize(s, wanted, maxRasterSize, noGrow);
    var after := GetParseSettings(c, w, k.sizes, s, wanted, maxRasterSize, noGrow, noCache).1;
    if s.kind.Vector? {
      StylePathFresh(w, c, styles, s, None, noCache);
    } else if s.kind.Raster? {
      ChoiceIsListed(k.sizes, desired);
      StylePathFresh(w, c, styles, s, Some(Choose(k.sizes, desired).source), noCache);
      if Agrees(k, w, c, styles) {
        assert CacheKey(s.key, Some(desired)) in c.raster ==>
            c.raster[CacheKey(s.key, Some(desired))] == FreshEntry(w, k.sizes, s, desired);
        forall t, d | t in styles && t.kind.Raster? && Admissible(styles, t, Some(d))
            && CacheKey(t.key, Some(d)) in after.raster
          ensures after.raster[CacheKey(t.key, Some(d))] == FreshEntry(w, k.sizes, t, d)
        {
          KeysIdentify(styles, s, Some(desired), t, Some(d));
        }
      }
    }
  }

  /** A call with styles of the set and, where it names a size itself, an admissible one. */
  ghost predicate StyleIn(call: Call, styles: set<Style>) {
    match call
    case StylePath(s, size, _) => s in styles && Admissible(styles, s, size)
    case ParseSettings(s, wanted, maxRasterSize, noGrow, _) =>
      s in styles && SizeFits(styles, s, wanted, maxRasterSize, noGrow)
    case Installed(s, _) => s in styles
    case Parse(_, wanted, style, noGrow, maxRasterSize, _, _) => style.Some? ==>
      style.value in styles && SizeFits(styles, style.value, wanted, maxRasterSize, noGrow)
    case FlushCaches => true
  }

  /** Calls that look past the caches: those with noCache, and flushing. */
  predicate IgnoresCaches(call: Call) {
    match call
    case StylePath(_, _, noCache) => noCache
    case ParseSettings(_, _, _, _, noCache) => noCache
    case Installed(_, noCache) => noCache
    case Parse(_, _, style, _, _, _, _) => style.None?
    case FlushCaches => true
  }

  lemma {:induction false} StepFresh(k: Script, w: World, c: Caches, styles: set<Style>, call: Call)
    requires Suits(k, styles) && StyleIn(call, styles)
    ensures Agrees(k, w, c, styles) || IgnoresCaches(call) ==> Step(k, w, c, call).0 == FreshAnswer(k, w, call)
    ensures Agrees(k, w, c, styles) || call.FlushCaches? ==> Agrees(k, w, Step(k, w, c, call).1, styles)
  {
    match call
    case StylePath(s, size, noCache) => StylePathFresh(w, c, styles, s, size, noCache);
    case ParseSettings(s, wanted, maxRasterSize, noGrow, noCache) =>
      SettingsFresh(k, w, c, styles, s, wanted, maxRasterSize, noGrow, noCache);
    case Installed(s, noCache) => StylePathsFresh(w, c, styles, s, ExpectedSizes(s, k.sizes), noCache);
    case Parse(_, wanted, style, noGrow, maxRasterSize, _, _) =>
      if style.Some? { SettingsFresh(k, w, c, styles, style.value, wanted, maxRasterSize, noGrow, false); }
    case FlushCaches =>
  }

  /**
   The discipline the script asks of its users: after the outside world has changed, nothing but
   calls that ignore the caches until they have been flushed.
   */
  predicate Disciplined(events: seq<Event>, clean: bool) {
    events == [] ||
    match events[0]
    case Change(_) => Disciplined(events[1..], false)
    case Do(call) =>
      && (clean || IgnoresCaches(call))
      && Disciplined(events[1..], clean || call.FlushCaches?)
  }

  ghost predicate StylesIn(events: seq<Event>, styles: set<Style>) {
    forall i :: 0 <= i < |events| && events[i].Do? ==> StyleIn(events[i].call, styles)
  }

  /**
   Cache transparency over whole runs: with any mix of calls, cached or not, through any changes
   of the world that are followed by a flush, every answer is the one given without caches.
   */
  lemma {:induction false} CachesAreTransparent(
      k: Script, w: World, c: Caches, styles: set<Style>, events: seq<Event>, clean: bool)
    requires Suits(k, styles) && StylesIn(events, styles)
    requires clean ==> Agrees(k, w, c, styles)
    requires Disciplined(events, clean)
    ensures Run(k, w, c, events) == FreshRun(k, w, events)
    decreases |events|
  {
    if events != [] {
      var rest := events[1..];
      assert StylesIn(rest, styles);
      match events[0]
      case Change(v) => CachesAreTransparent(k, v, c, styles, rest, false);
      case Do(call) =>
        StepFresh(k, w, c, styles, call);
        CachesAreTransparent(k, w, Step(k, w, c, call).1, styles, rest, clean || call.FlushCaches?);
    }
  }

  /** From the script's initial, empty caches on. */
  lemma {:induction false} RunsFromStartAreFresh(k: Script, w: World, styles: set<Style>, events: seq<Event>)
    requires Suits(k, styles) && StylesIn(events, styles) && Disciplined(events, true)
    ensures Run(k, w, EMPTY, events) == FreshRun(k, w, events)
  {
    CachesAreTransparent(k, w, EMPTY, styles, events, true);
  }

  // ---------- parse on an unavailable style ----------

  /** The raster size a rewriting needs a style for; vector styles have none. */
  function NeededSize(k: Script, s: Style, wanted: real, maxRasterSize: int, noGrow: bool): Option<int>
    requires |k.sizes| > 0
  {
    if s.kind.Raster? then Some(Choose(k.sizes, EffectiveSize(s, wanted, maxRasterSize, noGrow)).source) else None
  }

  /**
   When no version has the needed size, as is always so for the system style, parseAsMarkup
   returns the text unchanged, with the same counts as any other style in any world.
   */
  lemma {:induction false} UnavailableStyleKeepsText(
      k: Script, w: World, v: World, text: JsString, wanted: real, s: Style, t: Style,
      noGrow: bool, maxRasterSize: int)
    requires |k.sizes| > 0
    requires !Lookup(w, s, NeededSize(k, s, wanted, maxRasterSize, noGrow)).found
    ensures var r, q := FreshAnswer(k, w, Parse(text, wanted, Some(s), noGrow, maxRasterSize, true, true)),
                        FreshAnswer(k, v, Parse(text, wanted, Some(t), noGrow, maxRasterSize, true, true));
      r.parsed.text == text && r.parsed == q.parsed.(text := text)
  {
    var a, b := FreshSettings(w, k.sizes, s, wanted, maxRasterSize, noGrow),
                FreshSettings(v, k.sizes, t, wanted, maxRasterSize, noGrow);
    LookupFails(w, s, NeededSize(k, s, wanted, maxRasterSize, noGrow));
    SystemFontKeepsText(k.pattern, text, OptionsOf(a, s, true, true), OptionsOf(b, t, true, true));
  }

  /** The same with caches that agree with the world: the engine's own answer is the text unchanged. */
  lemma {:induction false} UnavailableStyleKeepsTextCached(
      k: Script, w: World, c: Caches, styles: set<Style>, text: JsString, wanted: real, s: Style,
      noGrow: bool, maxRasterSize: int)
    requires Suits(k, styles) && s in styles && SizeFits(styles, s, wanted, maxRasterSize, noGrow)
    requires Agrees(k, w, c, styles)
    requires !Lookup(w, s, NeededSize(k, s, wanted, maxRasterSize, noGrow)).found
    ensures var r := Step(k, w, c, Parse(text, wanted, Some(s), noGrow, maxRasterSize, true, true)).0;
      r.Rewritten? && r.parsed.text == text && r.parsed.emojiCount == |Matches(k.pattern, text, 0)|
  {
    var call := Parse(text, wanted, Some(s), noGrow, maxRasterSize, true, true);
    StepFresh(k, w, c, styles, call);
    UnavailableStyleKeepsText(k, w, w, text, wanted, s, s, noGrow, maxRasterSize);
  }
}
