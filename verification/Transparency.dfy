/**
 For which sets of styles the caches can never be noticed: the condition of the run theorem is
 not only sufficient but necessary.
 */
module Transparency {
  import opened JsStrings
  import opened Styles
  import opened StyleCaches
  import opened Wrappers

  /** Every call concerns styles of the set; nothing is asked of the sizes. */
  predicate Uses(events: seq<Event>, styles: set<Style>) {
    forall i :: 0 <= i < |events| && events[i].Do? ==> CallUses(events[i].call, styles)
  }

  predicate CallUses(call: Call, styles: set<Style>) {
    match call
    case StylePath(s, _, _) => s in styles
    case ParseSettings(s, _, _, _, _) => s in styles
    case Installed(s, _) => s in styles
    case Parse(_, _, style, _, _, _, _) => style.Some? ==> style.value in styles
    case FlushCaches => true
  }

  lemma {:induction false} SeparateAdmitsAll(k: Script, styles: set<Style>, events: seq<Event>)
    requires UniqueKeys(styles) && |k.sizes| > 0 && Separate(styles) && Uses(events, styles)
    ensures Suits(k, styles) && StylesIn(events, styles)
  {
    forall i | 0 <= i < |events| && events[i].Do? ensures StyleIn(events[i].call, styles) {
    }
  }

  // ---------- A run that goes wrong ----------

  /** A world in which every requested version is there, under the path asked for. */
  function FullWorld(): World { World([], p => p, p => true) }

  lemma {:induction false} FullWorldLookup(s: Style, size: Option<int>)
    ensures Lookup(FullWorld(), s, size) ==
      if Searchable(s) then StyleStatus(true, RequestedPath(FullWorld(), s, size, s.versions[0]), true) else NOT_FOUND
  {
    var w := FullWorld();
    if Searchable(s) {
      var p := RequestedPath(w, s, size, s.versions[0]);
      RequestedUnder(s, size, s.versions[0]);
      assert p[0] == '/' as int && Js("file://")[0] == 'f' as int;
      assert |p| >= 7 ==> p[..7][0] == p[0];
      assert Present(w, s, size, 0);
    } else {
      LookupFails(w, s, size);
    }
  }

  /** The requested path starts with the style's directory and goes on with a slash. */
  lemma {:induction false} RequestedUnder(s: Style, size: Option<int>, version: JsString)
    ensures var p, n := RequestedPath(FullWorld(), s, size, version), |BasePath(FullWorld(), s)|;
      |p| > n && p[..n] == BasePath(FullWorld(), s) && p[n] == '/' as int && p[0] == '/' as int && n > 0
  {
    var p, base := RequestedPath(FullWorld(), s, size, version), BasePath(FullWorld(), s);
    assert base[0] == Js("/")[0];
    assert p[..|base|] == base && p[|base|] == Js("/")[0];
  }

  lemma {:induction false} ConfusedPathsDiffer(t: Style, s: Style, x: Option<int>, y: Option<int>)
    requires s.key == t.key + [DASH] && (Searchable(t) || Searchable(s))
    ensures Lookup(FullWorld(), t, x) != Lookup(FullWorld(), s, y)
  {
    FullWorldLookup(t, x);
    FullWorldLookup(s, y);
    if Searchable(t) && Searchable(s) {
      RequestedUnder(t, x, t.versions[0]);
      RequestedUnder(s, y, s.versions[0]);
      var n := |BasePath(FullWorld(), t)|;
      assert BasePath(FullWorld(), s) == BasePath(FullWorld(), t) + [DASH];
      assert BasePath(FullWorld(), s)[n] == DASH;
      assert RequestedPath(FullWorld(), s, y, s.versions[0])[..n + 1][n] == DASH;
    }
  }

  /** After the first style has been found, the second is answered with the first one's path. */
  lemma {:induction false} SearchConfused(k: Script, t: Style, x: int, s: Style, y: int)
    requires |k.sizes| > 0 && Searchable(t)
    requires CacheKey(t.key, Some(x)) == CacheKey(s.key, Some(y))
    requires Lookup(FullWorld(), t, Some(x)) != Lookup(FullWorld(), s, Some(y))
    ensures var events := [Do(StylePath(t, Some(x), false)), Do(StylePath(s, Some(y), false))];
      Run(k, FullWorld(), EMPTY, events) != FreshRun(k, FullWorld(), events)
  {
    var w, first, second := FullWorld(), StylePath(t, Some(x), false), StylePath(s, Some(y), false);
    FullWorldLookup(t, Some(x));
    TwoCalls(k, w, first, second);
  }

  lemma {:induction false} TwoCalls(k: Script, w: World, a: Call, b: Call)
    requires |k.sizes| > 0
    ensures Run(k, w, EMPTY, [Do(a), Do(b)]) ==
      [Step(k, w, EMPTY, a).0, Step(k, w, Step(k, w, EMPTY, a).1, b).0]
    ensures FreshRun(k, w, [Do(a), Do(b)]) == [FreshAnswer(k, w, a), FreshAnswer(k, w, b)]
  {
    var events, c := [Do(a), Do(b)], Step(k, w, EMPTY, a).1;
    assert events[1..] == [Do(b)] && [Do(b)][1..] == [];
    assert Run(k, w, c, [Do(b)]) == [Step(k, w, c, b).0] + Run(k, w, Step(k, w, c, b).1, []);
    assert FreshRun(k, w, [Do(b)]) == [FreshAnswer(k, w, b)] + FreshRun(k, w, []);
    assert Run(k, w, EMPTY, events) == [Step(k, w, EMPTY, a).0] + Run(k, w, c, [Do(b)]);
    assert FreshRun(k, w, events) == [FreshAnswer(k, w, a)] + FreshRun(k, w, [Do(b)]);
  }

  // ---------- Raster styles without versions ----------

  /** A bound beyond all listed sizes, of either sign. */
  function Beyond(sizes: seq<int>): (n: int)
    ensures n > 0
    ensures forall i :: 0 <= i < |sizes| ==> -n < sizes[i] < n
  {
    if sizes == [] then 1
    else
      var m, last := Beyond(sizes[..|sizes| - 1]), sizes[|sizes| - 1];
      if last >= m then last + 1 else if -last >= m then -last + 1 else m
  }

  /** A wish far below all sizes and one far above never get the same effective size. */
  lemma {:induction false} FarWishesDiffer(sizes: seq<int>)
    requires |sizes| > 0
    ensures Choose(sizes, -Beyond(sizes)).effective != Choose(sizes, Beyond(sizes)).effective
  {
    var n := Beyond(sizes);
    assert -n < sizes[|sizes| - 1] < n && -n < sizes[0] < n;
    ChoiceIsListed(sizes, n);
    var i :| 0 <= i < |sizes| && sizes[i] == Choose(sizes, n).source;
    assert Choose(sizes, -n).effective == -n;
  }

  /** A request for the settings of exactly this effective size. */
  function Exactly(s: Style, n: int): Call { ParseSettings(s, n as real, 0, true, false) }

  lemma {:induction false} ExactSize(s: Style, n: int)
    ensures EffectiveSize(s, n as real, 0, true) == n
  {
  }

  lemma {:induction false} FirstExactly(k: Script, w: World, t: Style, n: int)
    requires |k.sizes| > 0 && t.kind.Raster?
    ensures var c, key := Step(k, w, EMPTY, Exactly(t, n)).1, CacheKey(t.key, Some(n));
      key in c.raster && c.raster[key].effective == Choose(k.sizes, n).effective
  {
    ExactSize(t, n);
  }

  lemma {:induction false} SecondExactly(k: Script, w: World, c: Caches, s: Style, n: int)
    requires |k.sizes| > 0 && s.kind.Raster? && CacheKey(s.key, Some(n)) in c.raster
    ensures var answer, due := Step(k, w, c, Exactly(s, n)).0, FreshAnswer(k, w, Exactly(s, n));
      && answer.SettingsFound? && answer.settings.effectiveSize == c.raster[CacheKey(s.key, Some(n))].effective
      && due.SettingsFound? && due.settings.effectiveSize == Choose(k.sizes, n).effective
  {
    ExactSize(s, n);
  }

  lemma {:induction false} SecondDiffers(k: Script, w: World, t: Style, x: int, s: Style, y: int)
    requires |k.sizes| > 0 && t.kind.Raster? && s.kind.Raster?
    requires CacheKey(t.key, Some(x)) == CacheKey(s.key, Some(y))
    requires Choose(k.sizes, x).effective != Choose(k.sizes, y).effective
    ensures Step(k, w, Step(k, w, EMPTY, Exactly(t, x)).1, Exactly(s, y)).0 != FreshAnswer(k, w, Exactly(s, y))
  {
    FirstExactly(k, w, t, x);
    SecondExactly(k, w, Step(k, w, EMPTY, Exactly(t, x)).1, s, y);
  }

  /** Two raster styles, even without versions: a request far below all sizes answers one far above them. */
  lemma {:induction false} RastersConfused(k: Script, t: Style, s: Style) returns (a: Call, b: Call)
    requires |k.sizes| > 0 && s.key == t.key + [DASH] && t.kind.Raster? && s.kind.Raster?
    ensures a.ParseSettings? && b.ParseSettings? && a.s == t && b.s == s
    ensures Run(k, FullWorld(), EMPTY, [Do(a), Do(b)]) != FreshRun(k, FullWorld(), [Do(a), Do(b)])
  {
    var w, n := FullWorld(), Beyond(k.sizes);
    a, b := Exactly(t, -n), Exactly(s, n);
    CacheKeyKernel(t.key, Some(-n), s.key, Some(n));
    FarWishesDiffer(k.sizes);
    SecondDiffers(k, w, t, -n, s, n);
    TwoCalls(k, w, a, b);
  }

  /** A run of two cached calls that the caches spoil. */
  ghost predicate Spoiled(k: Script, styles: set<Style>, events: seq<Event>)
    requires |k.sizes| > 0
  {
    && Uses(events, styles) && Disciplined(events, true)
    && Run(k, FullWorld(), EMPTY, events) != FreshRun(k, FullWorld(), events)
  }

  lemma {:induction false} TwoCallsDisciplined(a: Call, b: Call)
    ensures Disciplined([Do(a), Do(b)], true)
  {
    var events := [Do(a), Do(b)];
    assert events[1..] == [Do(b)] && [Do(b)][1..] == [];
    assert Disciplined([Do(b)], true);
  }

  lemma {:induction false} TwoCallsSpoil(k: Script, styles: set<Style>, a: Call, b: Call)
    requires |k.sizes| > 0 && CallUses(a, styles) && CallUses(b, styles)
    requires Run(k, FullWorld(), EMPTY, [Do(a), Do(b)]) != FreshRun(k, FullWorld(), [Do(a), Do(b)])
    ensures Spoiled(k, styles, [Do(a), Do(b)])
  {
    TwoCallsDisciplined(a, b);
  }

  /** In either order: who is found first answers for the other. */
  lemma {:induction false} SearchSpoils(k: Script, styles: set<Style>, t: Style, x: int, s: Style, y: int)
      returns (events: seq<Event>)
    requires |k.sizes| > 0 && Searchable(t) && t in styles && s in styles
    requires CacheKey(t.key, Some(x)) == CacheKey(s.key, Some(y))
    requires Lookup(FullWorld(), t, Some(x)) != Lookup(FullWorld(), s, Some(y))
    ensures Spoiled(k, styles, events)
  {
    events := [Do(StylePath(t, Some(x), false)), Do(StylePath(s, Some(y), false))];
    SearchConfused(k, t, x, s, y);
    TwoCallsSpoil(k, styles, StylePath(t, Some(x), false), StylePath(s, Some(y), false));
  }

  /** Every confusable pair has such a run. */
  lemma {:induction false} ConfusableIsNoticed(k: Script, styles: set<Style>, t: Style, s: Style)
      returns (events: seq<Event>)
    requires |k.sizes| > 0 && t in styles && s in styles && Confusable(t, s)
    ensures Spoiled(k, styles, events)
  {
    CacheKeyKernel(t.key, Some(-1), s.key, Some(1));
    if Searchable(t) {
      ConfusedPathsDiffer(t, s, Some(-1), Some(1));
      events := SearchSpoils(k, styles, t, -1, s, 1);
    } else if Searchable(s) {
      ConfusedPathsDiffer(t, s, Some(-1), Some(1));
      events := SearchSpoils(k, styles, s, 1, t, -1);
    } else {
      var a, b := RastersConfused(k, t, s);
      TwoCallsSpoil(k, styles, a, b);
      events := [Do(a), Do(b)];
    }
  }

  /** The caches cannot be noticed in this run. */
  ghost predicate Unnoticed(k: Script, w: World, events: seq<Event>)
    requires |k.sizes| > 0
  {
    Run(k, w, EMPTY, events) == FreshRun(k, w, events)
  }

  /**
   The exact condition: over styles with unique keys, all disciplined runs, of any sizes, in any
   world, answer as if there were no caches if and only if no two styles can be confused.
   */
  lemma {:induction false} TransparentIffSeparate(k: Script, styles: set<Style>)
    requires UniqueKeys(styles) && |k.sizes| > 0
    ensures Separate(styles) <==>
      forall w: World, events: seq<Event> ::
        Uses(events, styles) && Disciplined(events, true) ==> Unnoticed(k, w, events)
  {
    if Separate(styles) {
      forall w: World, events: seq<Event> | Uses(events, styles) && Disciplined(events, true)
        ensures Unnoticed(k, w, events)
      {
        SeparateAdmitsAll(k, styles, events);
        RunsFromStartAreFresh(k, w, styles, events);
      }
    } else {
      var t, s :| t in styles && s in styles && Confusable(t, s);
      var events := ConfusableIsNoticed(k, styles, t, s);
      assert !Unnoticed(k, FullWorld(), events);
    }
  }
}
