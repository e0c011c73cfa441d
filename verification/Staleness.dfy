/**
 What a changed world does to a run that does not flush: when a cached answer stays, and when an
 installed, updated or removed style is noticed.
 */
module Staleness {
  import opened JsStrings
  import opened Styles
  import opened StyleCaches
  import opened Wrappers

  // ---------- Raster entries ----------

  /** The calls that replace or drop the raster entry of a key: a flush, and a noCache request for that very key. */
  predicate Rewrites(call: Call, key: JsString) {
    match call
    case FlushCaches => true
    case ParseSettings(s, wanted, maxRasterSize, noGrow, noCache) =>
      noCache && s.kind.Raster? && CacheKey(s.key, Some(EffectiveSize(s, wanted, maxRasterSize, noGrow))) == key
    case _ => false
  }

  predicate SomeRewrites(events: seq<Event>, key: JsString) {
    exists i :: 0 <= i < |events| && events[i].Do? && Rewrites(events[i].call, key)
  }

  lemma {:induction false} SomeRewritesStep(events: seq<Event>, key: JsString)
    requires events != []
    ensures SomeRewrites(events, key) <==>
      (events[0].Do? && Rewrites(events[0].call, key)) || SomeRewrites(events[1..], key)
  {
    var rest := events[1..];
    if SomeRewrites(rest, key) {
      var i :| 0 <= i < |rest| && rest[i].Do? && Rewrites(rest[i].call, key);
      assert events[i + 1] == rest[i];
    }
    if SomeRewrites(events, key) {
      var i :| 0 <= i < |events| && events[i].Do? && Rewrites(events[i].call, key);
      if i > 0 { assert rest[i - 1] == events[i]; }
    }
  }

  lemma {:induction false} StylePathsKeepRaster(c: Caches, w: World, s: Style, sizes: seq<Option<int>>, noCache: bool)
    ensures GetStylePaths(c, w, s, sizes, noCache).1.raster == c.raster
    decreases |sizes|
  {
    if sizes != [] {
      StylePathsKeepRaster(GetStylePath(c, w, s, sizes[0], noCache).1, w, s, sizes[1..], noCache);
    }
  }

  lemma {:induction false} SettingsKeepRaster(k: Script, w: World, c: Caches, key: JsString, s: Style, wanted: real,
                                              maxRasterSize: int, noGrow: bool, noCache: bool)
    requires |k.sizes| > 0 && key in c.raster
    requires !Rewrites(ParseSettings(s, wanted, maxRasterSize, noGrow, noCache), key)
    ensures var after := GetParseSettings(c, w, k.sizes, s, wanted, maxRasterSize, noGrow, noCache).1;
      key in after.raster && after.raster[key] == c.raster[key]
  {
  }

  lemma {:induction false} StepKeepsRaster(k: Script, w: World, c: Caches, call: Call, key: JsString)
    requires |k.sizes| > 0 && key in c.raster && !Rewrites(call, key)
    ensures var after := Step(k, w, c, call).1;
      key in after.raster && after.raster[key] == c.raster[key]
  {
    match call
    case StylePath(_, _, _) =>
    case ParseSettings(s, wanted, maxRasterSize, noGrow, noCache) =>
      SettingsKeepRaster(k, w, c, key, s, wanted, maxRasterSize, noGrow, noCache);
    case Installed(s, noCache) => StylePathsKeepRaster(c, w, s, ExpectedSizes(s, k.sizes), noCache);
    case Parse(_, wanted, style, noGrow, maxRasterSize, _, _) =>
      if style.Some? { SettingsKeepRaster(k, w, c, key, style.value, wanted, maxRasterSize, noGrow, false); }
    case FlushCaches =>
  }

  /** A raster entry survives everything but the calls that rewrite its key, through all changes of the world. */
  lemma {:induction false} RasterEntryPersists(k: Script, w: World, c: Caches, events: seq<Event>, key: JsString)
    requires |k.sizes| > 0 && key in c.raster && !SomeRewrites(events, key)
    ensures key in After(k, w, c, events).raster
    ensures After(k, w, c, events).raster[key] == c.raster[key]
    decreases |events|
  {
    if events != [] {
      SomeRewritesStep(events, key);
      match events[0]
      case Change(v) => RasterEntryPersists(k, v, c, events[1..], key);
      case Do(call) =>
        StepKeepsRaster(k, w, c, call, key);
        RasterEntryPersists(k, w, Step(k, w, c, call).1, events[1..], key);
    }
  }

  /** A raster wish, with the two keys under which its answer is cached. */
  datatype Wish = Wish(s: Style, wanted: real, maxRasterSize: int, noGrow: bool) {
    function Desired(): int { EffectiveSize(s, wanted, maxRasterSize, noGrow) }

    function EntryKey(): JsString { CacheKey(s.key, Some(Desired())) }

    function Source(k: Script): Option<int>
      requires |k.sizes| > 0
    {
      Some(Choose(k.sizes, Desired()).source)
    }

    /** What the engine answers to the wish, with the caches in use. */
    function Ask(k: Script, c: Caches, w: World): Settings
      requires |k.sizes| > 0
    {
      GetParseSettings(c, w, k.sizes, s, wanted, maxRasterSize, noGrow, false).0
    }
  }

  /** In every world a run passes through, a search for the style gives some other path. */
  predicate OtherPath(w: World, events: seq<Event>, s: Style, size: Option<int>, path: JsString) {
    && Lookup(w, s, size).path != path
    && forall i :: 0 <= i < |events| && events[i].Change? ==> Lookup(events[i].world, s, size).path != path
  }

  /** The wish is no longer answered with `path`: its entry has another one, or will get another one. */
  predicate Renewed(k: Script, c: Caches, wish: Wish, path: JsString)
    requires |k.sizes| > 0
  {
    if wish.EntryKey() in c.raster then c.raster[wish.EntryKey()].path != path
    else
      var key := CacheKey(wish.s.key, wish.Source(k));
      key in c.status ==> c.status[key].path != path
  }

  predicate StatusOther(c: Caches, key: JsString, path: JsString) {
    key in c.status ==> c.status[key].path != path
  }

  lemma {:induction false} SearchKeepsOther(w: World, c: Caches, styles: set<Style>, s: Style, size: Option<int>,
                                            path: JsString, t: Style, z: Option<int>, noCache: bool)
    requires UniqueKeys(styles) && s in styles && t in styles
    requires Admissible(styles, s, size) && Admissible(styles, t, z)
    requires Lookup(w, s, size).path != path
    ensures var r := GetStylePath(c, w, t, z, noCache);
      && (StatusOther(c, CacheKey(s.key, size), path) ==> StatusOther(r.1, CacheKey(s.key, size), path))
      && (t == s && z == size && (noCache || StatusOther(c, CacheKey(s.key, size), path)) ==> r.0.path != path)
  {
    StrayKeyIsNoCacheKey(s.key, size);
    if Lookup(w, t, z).found {
      FoundIsSearchable(w, t, z);
      KeysIdentify(styles, s, size, t, z);
    }
    LookupFails(w, s, size);
  }

  lemma {:induction false} SearchesKeepOther(w: World, c: Caches, styles: set<Style>, s: Style, size: Option<int>,
                                             path: JsString, t: Style, sizes: seq<Option<int>>, noCache: bool)
    requires UniqueKeys(styles) && s in styles && t in styles && Admissible(styles, s, size)
    requires forall i :: 0 <= i < |sizes| ==> Admissible(styles, t, sizes[i])
    requires Lookup(w, s, size).path != path && StatusOther(c, CacheKey(s.key, size), path)
    ensures StatusOther(GetStylePaths(c, w, t, sizes, noCache).1, CacheKey(s.key, size), path)
    decreases |sizes|
  {
    if sizes != [] {
      SearchKeepsOther(w, c, styles, s, size, path, t, sizes[0], noCache);
      SearchesKeepOther(w, GetStylePath(c, w, t, sizes[0], noCache).1, styles, s, size, path, t, sizes[1..], noCache);
    }
  }

  /** A style of the set and a size of it that the caches tell apart from all others. */
  ghost predicate Proper(k: Script, styles: set<Style>, wish: Wish) {
    && Suits(k, styles) && wish.s in styles && wish.s.kind.Raster?
    && SizeFits(styles, wish.s, wish.wanted, wish.maxRasterSize, wish.noGrow)
  }

  lemma {:induction false} SettingsRenew(k: Script, w: World, c: Caches, styles: set<Style>, wish: Wish, path: JsString,
                                         t: Style, wanted: real, maxRasterSize: int, noGrow: bool, noCache: bool)
    requires Proper(k, styles, wish) && t in styles && SizeFits(styles, t, wanted, maxRasterSize, noGrow)
    requires Lookup(w, wish.s, wish.Source(k)).path != path
    ensures var r := GetParseSettings(c, w, k.sizes, t, wanted, maxRasterSize, noGrow, noCache);
      var key := CacheKey(t.key, Some(EffectiveSize(t, wanted, maxRasterSize, noGrow)));
      var same := t.kind.Raster? && key == wish.EntryKey();
      Renewed(k, c, wish, path) || (noCache && same) ==> Renewed(k, r.1, wish, path)
  {
    var s, desired := wish.s, EffectiveSize(t, wanted, maxRasterSize, noGrow);
    ChoiceIsListed(k.sizes, desired);
    ChoiceIsListed(k.sizes, wish.Desired());
    if t.kind.Vector? {
      SearchKeepsOther(w, c, styles, s, wish.Source(k), path, t, None, noCache);
    } else if t.kind.Raster? {
      SearchKeepsOther(w, c, styles, s, wish.Source(k), path, t, Some(Choose(k.sizes, desired).source), noCache);
      KeysIdentify(styles, s, Some(wish.Desired()), t, Some(desired));
    }
  }

  lemma {:induction false} InstalledRenews(k: Script, w: World, c: Caches, styles: set<Style>, wish: Wish,
                                           path: JsString, t: Style, noCache: bool)
    requires Proper(k, styles, wish) && t in styles
    requires Lookup(w, wish.s, wish.Source(k)).path != path && Renewed(k, c, wish, path)
    ensures Renewed(k, IsInstalled(c, w, k.sizes, t, noCache).1, wish, path)
  {
    ChoiceIsListed(k.sizes, wish.Desired());
    StylePathsKeepRaster(c, w, t, ExpectedSizes(t, k.sizes), noCache);
    if StatusOther(c, CacheKey(wish.s.key, wish.Source(k)), path) {
      SearchesKeepOther(w, c, styles, wish.s, wish.Source(k), path, t, ExpectedSizes(t, k.sizes), noCache);
    }
  }

  lemma {:induction false} SearchRenews(k: Script, w: World, c: Caches, styles: set<Style>, wish: Wish,
                                        path: JsString, t: Style, z: Option<int>, noCache: bool)
    requires Proper(k, styles, wish) && t in styles && Admissible(styles, t, z)
    requires Lookup(w, wish.s, wish.Source(k)).path != path && Renewed(k, c, wish, path)
    ensures Renewed(k, GetStylePath(c, w, t, z, noCache).1, wish, path)
  {
    ChoiceIsListed(k.sizes, wish.Desired());
    SearchKeepsOther(w, c, styles, wish.s, wish.Source(k), path, t, z, noCache);
  }

  lemma {:induction false} StepRenews(k: Script, w: World, c: Caches, styles: set<Style>, wish: Wish, path: JsString,
                                      call: Call)
    requires Proper(k, styles, wish) && StyleIn(call, styles)
    requires Lookup(w, wish.s, wish.Source(k)).path != path
    requires Renewed(k, c, wish, path) || Rewrites(call, wish.EntryKey())
    ensures Renewed(k, Step(k, w, c, call).1, wish, path)
  {
    match call
    case StylePath(t, z, noCache) => SearchRenews(k, w, c, styles, wish, path, t, z, noCache);
    case ParseSettings(t, wanted, maxRasterSize, noGrow, noCache) =>
      SettingsRenew(k, w, c, styles, wish, path, t, wanted, maxRasterSize, noGrow, noCache);
    case Installed(t, noCache) =>
      InstalledRenews(k, w, c, styles, wish, path, t, noCache);
    case Parse(_, wanted, style, noGrow, maxRasterSize, _, _) =>
      if style.Some? {
        SettingsRenew(k, w, c, styles, wish, path, style.value, wanted, maxRasterSize, noGrow, false);
      }
    case FlushCaches =>
  }

  lemma {:induction false} AskRenewed(k: Script, c: Caches, u: World, styles: set<Style>, wish: Wish, path: JsString)
    requires Proper(k, styles, wish) && Renewed(k, c, wish, path)
    requires Lookup(u, wish.s, wish.Source(k)).path != path
    ensures wish.Ask(k, c, u).stylePath != path
  {
    ChoiceIsListed(k.sizes, wish.Desired());
    SearchKeepsOther(u, c, styles, wish.s, wish.Source(k), path, wish.s, wish.Source(k), false);
  }

  lemma {:induction false} RenewedPersists(k: Script, w: World, c: Caches, styles: set<Style>, events: seq<Event>,
                                           wish: Wish, path: JsString)
    requires Proper(k, styles, wish) && StylesIn(events, styles)
    requires OtherPath(w, events, wish.s, wish.Source(k), path) && Renewed(k, c, wish, path)
    ensures Renewed(k, After(k, w, c, events), wish, path)
    decreases |events|
  {
    if events != [] {
      var rest := events[1..];
      assert StylesIn(rest, styles);
      assert forall i :: 0 <= i < |rest| ==> rest[i] == events[i + 1];
      match events[0]
      case Change(v) => RenewedPersists(k, v, c, styles, rest, wish, path);
      case Do(call) =>
        StepRenews(k, w, c, styles, wish, path, call);
        RenewedPersists(k, w, Step(k, w, c, call).1, styles, rest, wish, path);
    }
  }

  lemma {:induction false} RewrittenIsRenewed(k: Script, w: World, c: Caches, styles: set<Style>, events: seq<Event>,
                                              wish: Wish, path: JsString)
    requires Proper(k, styles, wish) && StylesIn(events, styles)
    requires OtherPath(w, events, wish.s, wish.Source(k), path) && SomeRewrites(events, wish.EntryKey())
    ensures Renewed(k, After(k, w, c, events), wish, path)
    decreases |events|
  {
    var rest := events[1..];
    assert StylesIn(rest, styles);
    assert forall i :: 0 <= i < |rest| ==> rest[i] == events[i + 1];
    SomeRewritesStep(events, wish.EntryKey());
    match events[0]
    case Change(v) => RewrittenIsRenewed(k, v, c, styles, rest, wish, path);
    case Do(call) =>
      var after := Step(k, w, c, call).1;
      if Rewrites(call, wish.EntryKey()) {
        StepRenews(k, w, c, styles, wish, path, call);
        RenewedPersists(k, w, after, styles, rest, wish, path);
      } else {
        RewrittenIsRenewed(k, w, after, styles, rest, wish, path);
      }
  }

  /**
   The exact condition for a cached raster path to be kept although every search would by now give
   another one: nothing has rewritten its key. This is the outdated path after an update, and with
   the empty path it is the style found missing once.
   */
  lemma {:induction false} StaleRasterExact(k: Script, w: World, c: Caches, styles: set<Style>, events: seq<Event>,
                                            u: World, wish: Wish)
    requires Proper(k, styles, wish) && StylesIn(events, styles) && wish.EntryKey() in c.raster
    requires var path := c.raster[wish.EntryKey()].path;
      OtherPath(w, events, wish.s, wish.Source(k), path) && Lookup(u, wish.s, wish.Source(k)).path != path
    ensures var path, r := c.raster[wish.EntryKey()].path, wish.Ask(k, After(k, w, c, events), u);
      && (r.stylePath == path <==> !SomeRewrites(events, wish.EntryKey()))
      && (path == [] ==> (r.useSystem <==> !SomeRewrites(events, wish.EntryKey())))
  {
    var path := c.raster[wish.EntryKey()].path;
    if SomeRewrites(events, wish.EntryKey()) {
      RewrittenIsRenewed(k, w, c, styles, events, wish, path);
      AskRenewed(k, After(k, w, c, events), u, styles, wish, path);
    } else {
      RasterEntryPersists(k, w, c, events, wish.EntryKey());
    }
  }

  /** Asking for a raster style that is not there leaves an entry with the empty path. */
  lemma {:induction false} MissingRasterIsCached(k: Script, w: World, c: Caches, wish: Wish)
    requires |k.sizes| > 0 && wish.s.kind.Raster? && wish.EntryKey() !in c.raster
    requires CacheKey(wish.s.key, wish.Source(k)) !in c.status && !Lookup(w, wish.s, wish.Source(k)).found
    ensures var first := Step(k, w, c, ParseSettings(wish.s, wish.wanted, wish.maxRasterSize, wish.noGrow, false)).1;
      wish.EntryKey() in first.raster && first.raster[wish.EntryKey()].path == []
  {
    LookupFails(w, wish.s, wish.Source(k));
  }

  /**
   A raster style asked for when it was missing, and installed since: it stays on the system font
   for that size until, and only until, a flush or a noCache request for that size of that style.
   Before it is installed, and whatever happens to the world, nothing else brings it back either.
   */
  lemma {:induction false} MissingRasterSticks(k: Script, w: World, c: Caches, styles: set<Style>, v: World,
                                               events: seq<Event>, u: World, wish: Wish)
    requires Proper(k, styles, wish) && StylesIn(events, styles) && wish.EntryKey() !in c.raster
    requires CacheKey(wish.s.key, wish.Source(k)) !in c.status && !Lookup(w, wish.s, wish.Source(k)).found
    ensures var first := Step(k, w, c, ParseSettings(wish.s, wish.wanted, wish.maxRasterSize, wish.noGrow, false)).1;
      var r := wish.Ask(k, After(k, v, first, events), u);
      && (!SomeRewrites(events, wish.EntryKey()) ==> r.useSystem)
      && (OtherPath(v, events, wish.s, wish.Source(k), []) && Lookup(u, wish.s, wish.Source(k)).path != [] ==>
            (r.useSystem <==> !SomeRewrites(events, wish.EntryKey())))
  {
    var first := Step(k, w, c, ParseSettings(wish.s, wish.wanted, wish.maxRasterSize, wish.noGrow, false)).1;
    MissingRasterIsCached(k, w, c, wish);
    if !SomeRewrites(events, wish.EntryKey()) {
      RasterEntryPersists(k, v, first, events, wish.EntryKey());
    }
    if OtherPath(v, events, wish.s, wish.Source(k), []) && Lookup(u, wish.s, wish.Source(k)).path != [] {
      StaleRasterExact(k, v, first, styles, events, u, wish);
    }
  }

  // ---------- Status entries ----------

  /** The calls that search for a key past the cache. */
  predicate Bypasses(k: Script, call: Call, key: JsString)
    requires |k.sizes| > 0
  {
    match call
    case StylePath(s, size, noCache) => noCache && CacheKey(s.key, size) == key
    case ParseSettings(s, wanted, maxRasterSize, noGrow, noCache) =>
      noCache && !s.kind.System? && CacheKey(s.key, NeededSize(k, s, wanted, maxRasterSize, noGrow)) == key
    case Installed(s, noCache) => noCache && !s.kind.System? && Expects(s, ExpectedSizes(s, k.sizes), key)
    case _ => false
  }

  predicate Expects(s: Style, sizes: seq<Option<int>>, key: JsString) {
    exists i :: 0 <= i < |sizes| && CacheKey(s.key, sizes[i]) == key
  }

  /** Some call of the run flushes, or searches for the style past the cache in a world that has it. */
  predicate Refreshed(k: Script, w: World, events: seq<Event>, s: Style, size: Option<int>)
    requires |k.sizes| > 0
    decreases |events|
  {
    events != [] &&
    match events[0]
    case Change(v) => Refreshed(k, v, events[1..], s, size)
    case Do(call) => Refreshes(k, w, call, s, size) || Refreshed(k, w, events[1..], s, size)
  }

  predicate Refreshes(k: Script, w: World, call: Call, s: Style, size: Option<int>)
    requires |k.sizes| > 0
  {
    call.FlushCaches? || (Bypasses(k, call, CacheKey(s.key, size)) && Lookup(w, s, size).found)
  }

  /** In every world a run passes through, a search gives something else than `old`. */
  predicate OtherStatus(w: World, events: seq<Event>, s: Style, size: Option<int>, was: StyleStatus) {
    && Lookup(w, s, size) != was
    && forall i :: 0 <= i < |events| && events[i].Change? ==> Lookup(events[i].world, s, size) != was
  }

  /** A searchable style of the set with an admissible size, as every entry in the cache belongs to one. */
  ghost predicate Findable(k: Script, styles: set<Style>, s: Style, size: Option<int>) {
    Suits(k, styles) && s in styles && Searchable(s) && Admissible(styles, s, size)
  }

  predicate Holds(c: Caches, key: JsString, was: StyleStatus) { key in c.status && c.status[key] == was }

  lemma {:induction false} SearchWrites(w: World, c: Caches, styles: set<Style>, s: Style, size: Option<int>,
                                        t: Style, z: Option<int>, noCache: bool)
    requires UniqueKeys(styles) && s in styles && t in styles && Searchable(s)
    requires Admissible(styles, s, size) && Admissible(styles, t, z)
    ensures var key, after := CacheKey(s.key, size), GetStylePath(c, w, t, z, noCache).1;
      && (noCache && CacheKey(t.key, z) == key && Lookup(w, s, size).found ==> Holds(after, key, Lookup(w, s, size)))
      && (key in after.status ==> (key in c.status && after.status[key] == c.status[key])
                                  || after.status[key] == Lookup(w, s, size))
      && (key in c.status && !(noCache && CacheKey(t.key, z) == key && Lookup(w, s, size).found) ==>
            key in after.status && after.status[key] == c.status[key])
  {
    StrayKeyIsNoCacheKey(s.key, size);
    KeysIdentify(styles, s, size, t, z);
  }

  /** The same over the sizes isInstalled expects. */
  lemma {:induction false} SearchesWrite(w: World, c: Caches, styles: set<Style>, s: Style, size: Option<int>,
                                         t: Style, sizes: seq<Option<int>>, noCache: bool)
    requires UniqueKeys(styles) && s in styles && t in styles && Searchable(s) && Admissible(styles, s, size)
    requires forall i :: 0 <= i < |sizes| ==> Admissible(styles, t, sizes[i])
    ensures var key, after := CacheKey(s.key, size), GetStylePaths(c, w, t, sizes, noCache).1;
      var hit := noCache && Expects(t, sizes, key) && Lookup(w, s, size).found;
      && (hit ==> Holds(after, key, Lookup(w, s, size)))
      && (key in after.status ==> (key in c.status && after.status[key] == c.status[key])
                                  || after.status[key] == Lookup(w, s, size))
      && (key in c.status && !hit ==> key in after.status && after.status[key] == c.status[key])
    decreases |sizes|
  {
    if sizes != [] {
      var rest, key := sizes[1..], CacheKey(s.key, size);
      SearchWrites(w, c, styles, s, size, t, sizes[0], noCache);
      SearchesWrite(w, GetStylePath(c, w, t, sizes[0], noCache).1, styles, s, size, t, rest, noCache);
      ExpectsStep(t, sizes, key);
    }
  }

  lemma {:induction false} ExpectsStep(t: Style, sizes: seq<Option<int>>, key: JsString)
    requires sizes != []
    ensures Expects(t, sizes, key) <==> CacheKey(t.key, sizes[0]) == key || Expects(t, sizes[1..], key)
  {
    var rest := sizes[1..];
    if Expects(t, rest, key) {
      var i :| 0 <= i < |rest| && CacheKey(t.key, rest[i]) == key;
      assert sizes[i + 1] == rest[i];
    }
    if Expects(t, sizes, key) {
      var i :| 0 <= i < |sizes| && CacheKey(t.key, sizes[i]) == key;
      if i > 0 { assert rest[i - 1] == sizes[i]; }
    }
  }

  /** Between two worlds' views of a key: kept as it was, or what a search finds now. */
  ghost predicate Moves(w: World, c: Caches, after: Caches, s: Style, size: Option<int>, refreshed: bool) {
    var key := CacheKey(s.key, size);
    && (refreshed ==> key !in after.status || after.status[key] == Lookup(w, s, size))
    && (key in after.status ==>
          (key in c.status && after.status[key] == c.status[key]) || after.status[key] == Lookup(w, s, size))
    && (key in c.status && !refreshed ==> key in after.status && after.status[key] == c.status[key])
  }

  lemma {:induction false} SettingsMove(k: Script, w: World, c: Caches, styles: set<Style>, s: Style, size: Option<int>,
                                        t: Style, wanted: real, maxRasterSize: int, noGrow: bool, noCache: bool)
    requires Findable(k, styles, s, size) && t in styles
    ensures var key := CacheKey(t.key, NeededSize(k, t, wanted, maxRasterSize, noGrow));
      var hit := noCache && !t.kind.System? && key == CacheKey(s.key, size) && Lookup(w, s, size).found;
      Moves(w, c, GetParseSettings(c, w, k.sizes, t, wanted, maxRasterSize, noGrow, noCache).1, s, size, hit)
  {
    ChoiceIsListed(k.sizes, EffectiveSize(t, wanted, maxRasterSize, noGrow));
    SearchWrites(w, c, styles, s, size, t, NeededSize(k, t, wanted, maxRasterSize, noGrow), noCache);
  }

  lemma {:induction false} StepMoves(k: Script, w: World, c: Caches, styles: set<Style>, s: Style, size: Option<int>,
                                     call: Call)
    requires Findable(k, styles, s, size) && StyleIn(call, styles)
    ensures Moves(w, c, Step(k, w, c, call).1, s, size, Refreshes(k, w, call, s, size))
  {
    match call
    case StylePath(t, z, noCache) => SearchWrites(w, c, styles, s, size, t, z, noCache);
    case ParseSettings(t, wanted, maxRasterSize, noGrow, noCache) =>
      SettingsMove(k, w, c, styles, s, size, t, wanted, maxRasterSize, noGrow, noCache);
    case Installed(t, noCache) =>
      if !t.kind.System? { SearchesWrite(w, c, styles, s, size, t, ExpectedSizes(t, k.sizes), noCache); }
    case Parse(_, wanted, style, noGrow, maxRasterSize, _, _) =>
      if style.Some? { SettingsMove(k, w, c, styles, s, size, style.value, wanted, maxRasterSize, noGrow, false); }
    case FlushCaches =>
  }

  lemma {:induction false} StatusAfter(k: Script, w: World, c: Caches, styles: set<Style>, events: seq<Event>,
                                       s: Style, size: Option<int>, was: StyleStatus)
    requires Findable(k, styles, s, size) && StylesIn(events, styles) && OtherStatus(w, events, s, size, was)
    ensures Holds(After(k, w, c, events), CacheKey(s.key, size), was) <==>
      Holds(c, CacheKey(s.key, size), was) && !Refreshed(k, w, events, s, size)
    decreases |events|
  {
    if events != [] {
      var rest := events[1..];
      assert StylesIn(rest, styles);
      assert forall i :: 0 <= i < |rest| ==> rest[i] == events[i + 1];
      match events[0]
      case Change(v) => StatusAfter(k, v, c, styles, rest, s, size, was);
      case Do(call) =>
        StepMoves(k, w, c, styles, s, size, call);
        StatusAfter(k, w, Step(k, w, c, call).1, styles, rest, s, size, was);
    }
  }

  /**
   The exact condition for a found style to be answered as before although every search would by
   now give something else, be it updated or removed: no flush, and no noCache search for that key
   in a world in which it succeeds. A noCache search that fails does not drop the entry.
   */
  lemma {:induction false} StaleStatusExact(k: Script, w: World, c: Caches, styles: set<Style>, events: seq<Event>,
                                            u: World, s: Style, size: Option<int>, was: StyleStatus)
    requires Findable(k, styles, s, size) && StylesIn(events, styles) && Holds(c, CacheKey(s.key, size), was)
    requires OtherStatus(w, events, s, size, was) && Lookup(u, s, size) != was
    ensures GetStylePath(After(k, w, c, events), u, s, size, false).0 == was <==> !Refreshed(k, w, events, s, size)
  {
    StatusAfter(k, w, c, styles, events, s, size, was);
  }

  /** For a vector style the same decides what its pictures are taken from. */
  lemma {:induction false} StaleVectorSettings(k: Script, w: World, c: Caches, styles: set<Style>, events: seq<Event>,
                                               u: World, s: Style, was: StyleStatus, wanted: real,
                                               maxRasterSize: int, noGrow: bool)
    requires Findable(k, styles, s, None) && s.kind.Vector? && StylesIn(events, styles)
    requires Holds(c, CacheKey(s.key, None), was) && OtherStatus(w, events, s, None, was)
    requires Lookup(u, s, None).path != was.path && OtherPath(w, events, s, None, was.path)
    ensures var r := GetParseSettings(After(k, w, c, events), u, k.sizes, s, wanted, maxRasterSize, noGrow, false).0;
      r.stylePath == was.path <==> !Refreshed(k, w, events, s, None)
  {
    StaleStatusExact(k, w, c, styles, events, u, s, None, was);
    if Refreshed(k, w, events, s, None) {
      OtherAfterRefresh(k, w, c, styles, events, s, None, was.path);
    }
  }

  /** After a refresh no path of before is left under the key. */
  lemma {:induction false} OtherAfterRefresh(k: Script, w: World, c: Caches, styles: set<Style>, events: seq<Event>,
                                             s: Style, size: Option<int>, path: JsString)
    requires Findable(k, styles, s, size) && StylesIn(events, styles) && OtherPath(w, events, s, size, path)
    requires Refreshed(k, w, events, s, size) || StatusOther(c, CacheKey(s.key, size), path)
    ensures StatusOther(After(k, w, c, events), CacheKey(s.key, size), path)
    decreases |events|
  {
    if events != [] {
      var rest := events[1..];
      assert StylesIn(rest, styles);
      assert forall i :: 0 <= i < |rest| ==> rest[i] == events[i + 1];
      match events[0]
      case Change(v) => OtherAfterRefresh(k, v, c, styles, rest, s, size, path);
      case Do(call) =>
        StepMoves(k, w, c, styles, s, size, call);
        OtherAfterRefresh(k, w, Step(k, w, c, call).1, styles, rest, s, size, path);
    }
  }

  // ---------- Failed searches are not remembered ----------

  /** In every world a run passes through, the style cannot be found. */
  predicate NeverFound(w: World, events: seq<Event>, s: Style, size: Option<int>) {
    && !Lookup(w, s, size).found
    && forall i :: 0 <= i < |events| && events[i].Change? ==> !Lookup(events[i].world, s, size).found
  }

  lemma {:induction false} StylePathKeepsAbsent(w: World, c: Caches, styles: set<Style>, s: Style, size: Option<int>,
                             t: Style, z: Option<int>, noCache: bool)
    requires UniqueKeys(styles) && s in styles && t in styles
    requires Admissible(styles, s, size) && Admissible(styles, t, z)
    requires CacheKey(s.key, size) !in c.status && !Lookup(w, s, size).found
    ensures CacheKey(s.key, size) !in GetStylePath(c, w, t, z, noCache).1.status
  {
    StrayKeyIsNoCacheKey(s.key, size);
    if Lookup(w, t, z).found {
      FoundIsSearchable(w, t, z);
      KeysIdentify(styles, s, size, t, z);
    }
  }

  lemma {:induction false} StylePathsKeepAbsent(w: World, c: Caches, styles: set<Style>, s: Style, size: Option<int>,
                                                t: Style, sizes: seq<Option<int>>, noCache: bool)
    requires UniqueKeys(styles) && s in styles && t in styles && Admissible(styles, s, size)
    requires forall i :: 0 <= i < |sizes| ==> Admissible(styles, t, sizes[i])
    requires CacheKey(s.key, size) !in c.status && !Lookup(w, s, size).found
    ensures CacheKey(s.key, size) !in GetStylePaths(c, w, t, sizes, noCache).1.status
    decreases |sizes|
  {
    if sizes != [] {
      StylePathKeepsAbsent(w, c, styles, s, size, t, sizes[0], noCache);
      StylePathsKeepAbsent(w, GetStylePath(c, w, t, sizes[0], noCache).1, styles, s, size, t, sizes[1..], noCache);
    }
  }

  lemma {:induction false} StepKeepsAbsent(k: Script, w: World, c: Caches, styles: set<Style>, s: Style,
                                           size: Option<int>, call: Call)
    requires Suits(k, styles) && s in styles && StyleIn(call, styles) && Admissible(styles, s, size)
    requires CacheKey(s.key, size) !in c.status && !Lookup(w, s, size).found
    ensures CacheKey(s.key, size) !in Step(k, w, c, call).1.status
  {
    match call
    case StylePath(t, z, noCache) => StylePathKeepsAbsent(w, c, styles, s, size, t, z, noCache);
    case ParseSettings(t, wanted, maxRasterSize, noGrow, noCache) =>
      SettingsKeepAbsent(k, w, c, styles, s, size, t, wanted, maxRasterSize, noGrow, noCache);
    case Installed(t, noCache) =>
      StylePathsKeepAbsent(w, c, styles, s, size, t, ExpectedSizes(t, k.sizes), noCache);
    case Parse(_, wanted, style, noGrow, maxRasterSize, _, _) =>
      if style.Some? {
        SettingsKeepAbsent(k, w, c, styles, s, size, style.value, wanted, maxRasterSize, noGrow, false);
      }
    case FlushCaches =>
  }

  lemma {:induction false} SettingsKeepAbsent(k: Script, w: World, c: Caches, styles: set<Style>, s: Style,
                                              size: Option<int>, t: Style, wanted: real, maxRasterSize: int,
                                              noGrow: bool, noCache: bool)
    requires Suits(k, styles) && s in styles && t in styles && Admissible(styles, s, size)
    requires CacheKey(s.key, size) !in c.status && !Lookup(w, s, size).found
    ensures CacheKey(s.key, size) !in
      GetParseSettings(c, w, k.sizes, t, wanted, maxRasterSize, noGrow, noCache).1.status
  {
    var desired := EffectiveSize(t, wanted, maxRasterSize, noGrow);
    ChoiceIsListed(k.sizes, desired);
    if t.kind.Vector? {
      StylePathKeepsAbsent(w, c, styles, s, size, t, None, noCache);
    } else if t.kind.Raster? {
      StylePathKeepsAbsent(w, c, styles, s, size, t, Some(Choose(k.sizes, desired).source), noCache);
    }
  }

  /** A failed search is never remembered: a style not found so far is found as soon as it is installed. */
  lemma {:induction false} FoundOnceInstalled(k: Script, w: World, c: Caches, styles: set<Style>, events: seq<Event>,
                                              s: Style, size: Option<int>, v: World)
    requires Suits(k, styles) && s in styles && StylesIn(events, styles) && Admissible(styles, s, size)
    requires CacheKey(s.key, size) !in c.status && NeverFound(w, events, s, size)
    ensures GetStylePath(After(k, w, c, events), v, s, size, false).0 == Lookup(v, s, size)
    decreases |events|
  {
    if events != [] {
      var rest := events[1..];
      assert StylesIn(rest, styles);
      assert forall i :: 0 <= i < |rest| ==> rest[i] == events[i + 1];
      match events[0]
      case Change(u) => FoundOnceInstalled(k, u, c, styles, rest, s, size, v);
      case Do(call) =>
        StepKeepsAbsent(k, w, c, styles, s, size, call);
        FoundOnceInstalled(k, w, Step(k, w, c, call).1, styles, rest, s, size, v);
    } else {
      LookupFails(v, s, size);
    }
  }

  /** So for the calls users make with a vector style: settings and rewriting are up to date at once. */
  lemma {:induction false} VectorFoundOnceInstalled(
      k: Script, w: World, c: Caches, styles: set<Style>, events: seq<Event>, s: Style, v: World, text: JsString,
      wanted: real, maxRasterSize: int, noGrow: bool, includePlain: bool, asMarkup: bool)
    requires Suits(k, styles) && s in styles && s.kind.Vector? && StylesIn(events, styles)
    requires CacheKey(s.key, None) !in c.status && NeverFound(w, events, s, None)
    ensures var after := After(k, w, c, events);
      var settings := ParseSettings(s, wanted, maxRasterSize, noGrow, false);
      var parse := Parse(text, wanted, Some(s), noGrow, maxRasterSize, includePlain, asMarkup);
      && Step(k, v, after, settings).0 == FreshAnswer(k, v, settings)
      && Step(k, v, after, parse).0 == FreshAnswer(k, v, parse)
  {
    FoundOnceInstalled(k, w, c, styles, events, s, None, v);
  }
}
