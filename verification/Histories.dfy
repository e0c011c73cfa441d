/**
 Runs without any discipline: the world may change at any time and nobody needs to flush. Every answer
 still comes from somewhere, namely from a world of the time since the last flush.
 */
module Histories {
  import opened Styles
  import opened StyleCaches
  import opened Wrappers

  /** The worlds since the last flush; the current one is the last. */
  type History = h: seq<World> | |h| > 0 witness [World([], p => p, p => false)]

  function Current(h: History): World { h[|h| - 1] }

  // ---------- What the caches remember ----------

  predicate WasFound(h: History, s: Style, size: Option<int>, status: StyleStatus) {
    exists i :: 0 <= i < |h| && status == Lookup(h[i], s, size)
  }

  predicate WasChosen(k: Script, h: History, s: Style, d: int, entry: RasterEntry)
    requires |k.sizes| > 0
  {
    exists i :: 0 <= i < |h| && entry == FreshEntry(h[i], k.sizes, s, d)
  }

  ghost predicate StatusRemembers(h: History, c: Caches, styles: set<Style>) {
    forall s, size {:trigger CacheKey(s.key, size)} ::
      s in styles && Admissible(styles, s, size) && CacheKey(s.key, size) in c.status ==>
        WasFound(h, s, size, c.status[CacheKey(s.key, size)])
  }

  ghost predicate RasterRemembers(k: Script, h: History, c: Caches, styles: set<Style>)
    requires |k.sizes| > 0
  {
    forall s, d {:trigger CacheKey(s.key, Some(d))} ::
      s in styles && s.kind.Raster? && Admissible(styles, s, Some(d)) && CacheKey(s.key, Some(d)) in c.raster ==>
        WasChosen(k, h, s, d, c.raster[CacheKey(s.key, Some(d))])
  }

  /** The invariant of all runs: each entry is what a search found in some world since the last flush. */
  ghost predicate Remembers(k: Script, h: History, c: Caches, styles: set<Style>)
    requires |k.sizes| > 0
  {
    StatusRemembers(h, c, styles) && RasterRemembers(k, h, c, styles)
  }

  lemma {:induction false} StillRemembers(k: Script, h: History, v: World, c: Caches, styles: set<Style>)
    requires |k.sizes| > 0 && Remembers(k, h, c, styles)
    ensures Remembers(k, h + [v], c, styles)
  {
    forall s, size | s in styles && Admissible(styles, s, size) && CacheKey(s.key, size) in c.status
      ensures WasFound(h + [v], s, size, c.status[CacheKey(s.key, size)])
    {
      var i :| 0 <= i < |h| && c.status[CacheKey(s.key, size)] == Lookup(h[i], s, size);
      assert (h + [v])[i] == h[i];
    }
    forall s, d | s in styles && s.kind.Raster? && Admissible(styles, s, Some(d))
        && CacheKey(s.key, Some(d)) in c.raster
      ensures WasChosen(k, h + [v], s, d, c.raster[CacheKey(s.key, Some(d))])
    {
      var i :| 0 <= i < |h| && c.raster[CacheKey(s.key, Some(d))] == FreshEntry(h[i], k.sizes, s, d);
      assert (h + [v])[i] == h[i];
    }
  }

  lemma {:induction false} FoundNow(h: History, s: Style, size: Option<int>)
    ensures WasFound(h, s, size, Lookup(Current(h), s, size))
  {
  }

  // ---------- One operation ----------

  lemma {:induction false} StylePathRemembers(h: History, c: Caches, styles: set<Style>, s: Style,
                                              size: Option<int>, noCache: bool)
    requires UniqueKeys(styles) && s in styles && Admissible(styles, s, size) && StatusRemembers(h, c, styles)
    ensures var r := GetStylePath(c, Current(h), s, size, noCache);
      WasFound(h, s, size, r.0) && StatusRemembers(h, r.1, styles) && r.1.raster == c.raster
  {
    var w := Current(h);
    var after := GetStylePath(c, w, s, size, noCache).1;
    FoundNow(h, s, size);
    forall t, z | t in styles && Admissible(styles, t, z) && CacheKey(t.key, z) in after.status
      ensures WasFound(h, t, z, after.status[CacheKey(t.key, z)])
    {
      StrayKeyIsNoCacheKey(t.key, z);
      if Lookup(w, s, size).found {
        FoundIsSearchable(w, s, size);
        KeysIdentify(styles, s, size, t, z);
      }
    }
  }

  /** The statuses of a style's sizes, each found in some world of the history. */
  ghost predicate WereFound(h: History, s: Style, sizes: seq<Option<int>>, statuses: seq<StyleStatus>) {
    |statuses| == |sizes| && forall j :: 0 <= j < |sizes| ==> WasFound(h, s, sizes[j], statuses[j])
  }

  lemma {:induction false} StylePathsRemember(h: History, c: Caches, styles: set<Style>, s: Style,
                                              sizes: seq<Option<int>>, noCache: bool)
    requires UniqueKeys(styles) && s in styles && StatusRemembers(h, c, styles)
    requires forall i :: 0 <= i < |sizes| ==> Admissible(styles, s, sizes[i])
    ensures var r := GetStylePaths(c, Current(h), s, sizes, noCache);
      WereFound(h, s, sizes, r.0) && StatusRemembers(h, r.1, styles) && r.1.raster == c.raster
    decreases |sizes|
  {
    if sizes != [] {
      StylePathRemembers(h, c, styles, s, sizes[0], noCache);
      StylePathsRemember(h, GetStylePath(c, Current(h), s, sizes[0], noCache).1, styles, s, sizes[1..], noCache);
    }
  }

  /** Settings as they would be without caches in some world of the history. */
  predicate WereFresh(k: Script, h: History, s: Style, wanted: real, maxRasterSize: int, noGrow: bool, r: Settings)
    requires |k.sizes| > 0
  {
    exists i :: 0 <= i < |h| && r == FreshSettings(h[i], k.sizes, s, wanted, maxRasterSize, noGrow)
  }

  lemma {:induction false} VectorRemembers(k: Script, h: History, c: Caches, styles: set<Style>, s: Style,
                                           wanted: real, maxRasterSize: int, noGrow: bool, noCache: bool)
    requires Suits(k, styles) && s in styles && !s.kind.Raster? && Remembers(k, h, c, styles)
    ensures var r := GetParseSettings(c, Current(h), k.sizes, s, wanted, maxRasterSize, noGrow, noCache);
      WereFresh(k, h, s, wanted, maxRasterSize, noGrow, r.0) && Remembers(k, h, r.1, styles)
  {
    if s.kind.Vector? {
      StylePathRemembers(h, c, styles, s, None, noCache);
      var status := GetStylePath(c, Current(h), s, None, noCache).0;
      var i :| 0 <= i < |h| && status == Lookup(h[i], s, None);
      assert GetParseSettings(c, Current(h), k.sizes, s, wanted, maxRasterSize, noGrow, noCache).0
          == FreshSettings(h[i], k.sizes, s, wanted, maxRasterSize, noGrow);
    } else {
      assert GetParseSettings(c, Current(h), k.sizes, s, wanted, maxRasterSize, noGrow, noCache).0
          == FreshSettings(h[0], k.sizes, s, wanted, maxRasterSize, noGrow);
    }
  }

  /** The raster entry a request answers from, be it cached or new. */
  lemma {:induction false} EntryRemembers(k: Script, h: History, c: Caches, styles: set<Style>, s: Style, d: int,
                                          noCache: bool)
    requires Suits(k, styles) && s in styles && s.kind.Raster? && Admissible(styles, s, Some(d))
    requires Remembers(k, h, c, styles)
    ensures var choice := Choose(k.sizes, d);
      var r := GetStylePath(c, Current(h), s, Some(choice.source), noCache);
      var entry := RasterEntry(choice.source, choice.effective, r.0.path);
      WasChosen(k, h, s, d, entry)
      && Remembers(k, h, r.1.(raster := r.1.raster[CacheKey(s.key, Some(d)) := entry]), styles)
  {
    var choice := Choose(k.sizes, d);
    ChoiceIsListed(k.sizes, d);
    StylePathRemembers(h, c, styles, s, Some(choice.source), noCache);
    var r := GetStylePath(c, Current(h), s, Some(choice.source), noCache);
    var entry := RasterEntry(choice.source, choice.effective, r.0.path);
    var i :| 0 <= i < |h| && r.0 == Lookup(h[i], s, Some(choice.source));
    assert entry == FreshEntry(h[i], k.sizes, s, d);
    EntryAdded(k, h, r.1, styles, s, d, entry);
  }

  lemma {:induction false} EntryAdded(k: Script, h: History, c: Caches, styles: set<Style>, s: Style, d: int,
                                      entry: RasterEntry)
    requires Suits(k, styles) && s in styles && s.kind.Raster? && Admissible(styles, s, Some(d))
    requires Remembers(k, h, c, styles) && WasChosen(k, h, s, d, entry)
    ensures Remembers(k, h, c.(raster := c.raster[CacheKey(s.key, Some(d)) := entry]), styles)
  {
    var after := c.(raster := c.raster[CacheKey(s.key, Some(d)) := entry]);
    forall t, z | t in styles && t.kind.Raster? && Admissible(styles, t, Some(z))
        && CacheKey(t.key, Some(z)) in after.raster
      ensures WasChosen(k, h, t, z, after.raster[CacheKey(t.key, Some(z))])
    {
      KeysIdentify(styles, s, Some(d), t, Some(z));
    }
  }

  lemma {:induction false} RasterSettingsRemember(k: Script, h: History, c: Caches, styles: set<Style>, s: Style,
                                                  wanted: real, maxRasterSize: int, noGrow: bool, noCache: bool)
    requires Suits(k, styles) && s in styles && s.kind.Raster? && Remembers(k, h, c, styles)
    requires SizeFits(styles, s, wanted, maxRasterSize, noGrow)
    ensures var r := GetParseSettings(c, Current(h), k.sizes, s, wanted, maxRasterSize, noGrow, noCache);
      WereFresh(k, h, s, wanted, maxRasterSize, noGrow, r.0) && Remembers(k, h, r.1, styles)
  {
    var d := EffectiveSize(s, wanted, maxRasterSize, noGrow);
    var r := GetParseSettings(c, Current(h), k.sizes, s, wanted, maxRasterSize, noGrow, noCache);
    EntryRemembers(k, h, c, styles, s, d, noCache);
    var key := CacheKey(s.key, Some(d));
    assert key in r.1.raster && WasChosen(k, h, s, d, r.1.raster[key]);
    var i :| 0 <= i < |h| && r.1.raster[key] == FreshEntry(h[i], k.sizes, s, d);
    assert r.0 == FreshSettings(h[i], k.sizes, s, wanted, maxRasterSize, noGrow);
  }

  // ---------- Whole runs ----------

  /** The answer of each call is the one it would get without caches in a world of the history. */
  ghost predicate Explained(k: Script, h: History, call: Call, answer: Answer)
    requires |k.sizes| > 0
  {
    && (IgnoresCaches(call) ==> answer == FreshAnswer(k, Current(h), call))
    && match call
       case Installed(s, _) => InstalledExplained(k, h, s, answer)
       case _ => exists i :: 0 <= i < |h| && answer == FreshAnswer(k, h[i], call)
  }

  /** Installation codes combine one search for each size, and each may be of another world. */
  ghost predicate InstalledExplained(k: Script, h: History, s: Style, answer: Answer) {
    if s.kind.System? then answer == Code(0)
    else exists statuses ::
      WereFound(h, s, ExpectedSizes(s, k.sizes), statuses) && answer == Code(InstallCode(statuses))
  }

  lemma {:induction false} SettingsRemember(k: Script, h: History, c: Caches, styles: set<Style>, s: Style,
                                            wanted: real, maxRasterSize: int, noGrow: bool, noCache: bool)
    requires Suits(k, styles) && s in styles && Remembers(k, h, c, styles)
    requires SizeFits(styles, s, wanted, maxRasterSize, noGrow)
    ensures var r := GetParseSettings(c, Current(h), k.sizes, s, wanted, maxRasterSize, noGrow, noCache);
      WereFresh(k, h, s, wanted, maxRasterSize, noGrow, r.0) && Remembers(k, h, r.1, styles)
  {
    if s.kind.Raster? {
      RasterSettingsRemember(k, h, c, styles, s, wanted, maxRasterSize, noGrow, noCache);
    } else {
      VectorRemembers(k, h, c, styles, s, wanted, maxRasterSize, noGrow, noCache);
    }
  }

  /** The history a call leaves behind: a flush forgets all worlds but the current one. */
  function AfterCall(h: History, call: Call): History {
    if call.FlushCaches? then [Current(h)] else h
  }

  lemma {:induction false} StepExplained(k: Script, h: History, c: Caches, styles: set<Style>, call: Call)
    requires Suits(k, styles) && StyleIn(call, styles) && Remembers(k, h, c, styles)
    ensures var r := Step(k, Current(h), c, call);
      Explained(k, h, call, r.0) && Remembers(k, AfterCall(h, call), r.1, styles)
  {
    var w := Current(h);
    StepFresh(k, w, c, styles, call);
    match call
    case StylePath(s, size, noCache) =>
      StylePathRemembers(h, c, styles, s, size, noCache);
      var i :| 0 <= i < |h| && GetStylePath(c, w, s, size, noCache).0 == Lookup(h[i], s, size);
      assert Step(k, w, c, call).0 == FreshAnswer(k, h[i], call);
    case ParseSettings(s, wanted, maxRasterSize, noGrow, noCache) =>
      SettingsRemember(k, h, c, styles, s, wanted, maxRasterSize, noGrow, noCache);
      var r := GetParseSettings(c, w, k.sizes, s, wanted, maxRasterSize, noGrow, noCache).0;
      var i :| 0 <= i < |h| && r == FreshSettings(h[i], k.sizes, s, wanted, maxRasterSize, noGrow);
      assert Step(k, w, c, call).0 == FreshAnswer(k, h[i], call);
    case Installed(s, noCache) => StylePathsRemember(h, c, styles, s, ExpectedSizes(s, k.sizes), noCache);
    case Parse(text, wanted, style, noGrow, maxRasterSize, includePlain, asMarkup) =>
      if style.Some? {
        SettingsRemember(k, h, c, styles, style.value, wanted, maxRasterSize, noGrow, false);
        var r := GetParseSettings(c, w, k.sizes, style.value, wanted, maxRasterSize, noGrow, false).0;
        var i :| 0 <= i < |h| && r == FreshSettings(h[i], k.sizes, style.value, wanted, maxRasterSize, noGrow);
        assert Step(k, w, c, call).0 == FreshAnswer(k, h[i], call);
      } else {
        assert Step(k, w, c, call).0 == FreshAnswer(k, h[0], call);
      }
    case FlushCaches => assert Step(k, w, c, call).0 == FreshAnswer(k, h[0], call);
  }

  /** Every answer of the run is explained by the worlds since the flush before it. */
  ghost predicate AllExplained(k: Script, h: History, events: seq<Event>, answers: seq<Answer>)
    requires |k.sizes| > 0
    decreases |events|
  {
    if events == [] then answers == []
    else match events[0]
      case Change(v) => AllExplained(k, h + [v], events[1..], answers)
      case Do(call) =>
        && answers != [] && Explained(k, h, call, answers[0])
        && AllExplained(k, AfterCall(h, call), events[1..], answers[1..])
  }

  /**
   Over whole runs without any discipline: whatever changes and whoever forgets to flush, every status,
   setting and rewritten text is the one given without caches in some world since the last flush, and
   in the current one if the call ignores the caches.
   */
  lemma {:induction false} EveryAnswerIsExplained(k: Script, h: History, c: Caches, styles: set<Style>,
                                                  events: seq<Event>)
    requires Suits(k, styles) && StylesIn(events, styles) && Remembers(k, h, c, styles)
    ensures AllExplained(k, h, events, Run(k, Current(h), c, events))
    decreases |events|
  {
    if events != [] {
      var rest := events[1..];
      assert StylesIn(rest, styles);
      match events[0]
      case Change(v) =>
        StillRemembers(k, h, v, c, styles);
        EveryAnswerIsExplained(k, h + [v], c, styles, rest);
      case Do(call) =>
        StepExplained(k, h, c, styles, call);
        EveryAnswerIsExplained(k, AfterCall(h, call), Step(k, Current(h), c, call).1, styles, rest);
    }
  }

  /** From the script's initial, empty caches on. */
  lemma {:induction false} RunsFromStartAreExplained(k: Script, w: World, styles: set<Style>, events: seq<Event>)
    requires Suits(k, styles) && StylesIn(events, styles)
    ensures AllExplained(k, [w], events, Run(k, w, EMPTY, events))
  {
    EveryAnswerIsExplained(k, [w], EMPTY, styles, events);
  }

  lemma {:induction false} OneWorldFinds(h: History, s: Style, sizes: seq<Option<int>>, statuses: seq<StyleStatus>)
    requires |h| == 1 && WereFound(h, s, sizes, statuses)
    ensures statuses == FreshStatuses(h[0], s, sizes)
  {
    var due := FreshStatuses(h[0], s, sizes);
    forall j | 0 <= j < |sizes| ensures statuses[j] == due[j] {
      assert WasFound(h, s, sizes[j], statuses[j]);
      var i :| 0 <= i < |h| && statuses[j] == Lookup(h[i], s, sizes[j]);
    }
  }

  lemma {:induction false} OneWorldIsFresh(k: Script, h: History, call: Call, answer: Answer)
    requires |k.sizes| > 0 && Explained(k, h, call, answer) && |h| == 1
    ensures answer == FreshAnswer(k, h[0], call)
  {
    if call.Installed? {
      assert InstalledExplained(k, h, call.s, answer);
      if !call.s.kind.System? {
        var sizes := ExpectedSizes(call.s, k.sizes);
        var statuses :| WereFound(h, call.s, sizes, statuses) && answer == Code(InstallCode(statuses));
        OneWorldFinds(h, call.s, sizes, statuses);
      }
    } else {
      var i :| 0 <= i < |h| && answer == FreshAnswer(k, h[i], call);
      assert i == 0;
    }
  }

  /** With the discipline no history has more than one world where it matters, so that all is fresh. */
  lemma {:induction false} ExplainedIsFresh(k: Script, h: History, events: seq<Event>, answers: seq<Answer>)
    requires |k.sizes| > 0 && AllExplained(k, h, events, answers) && Disciplined(events, |h| == 1)
    ensures answers == FreshRun(k, Current(h), events)
    decreases |events|
  {
    if events != [] {
      match events[0]
      case Change(v) => ExplainedIsFresh(k, h + [v], events[1..], answers);
      case Do(call) =>
        if |h| == 1 { OneWorldIsFresh(k, h, call, answers[0]); }
        ExplainedIsFresh(k, AfterCall(h, call), events[1..], answers[1..]);
        assert answers == [answers[0]] + answers[1..];
    }
  }
}
