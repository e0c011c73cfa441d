/**
 Emoji styles, where they are looked for, and which raster size serves a desired size:
 everything the engine computes when no cache is involved.
 */
module Styles {
  import opened JsStrings
  import opened Splitting
  import opened Wrappers

  datatype Kind = Raster | Vector | System

  /** A style; `kind` is its `type` field, where anything but 'r' and 's' is handled as a vector style. */
  datatype Style = Style(key: JsString, versions: seq<JsString>, ext: JsString, kind: Kind)

  datatype StyleStatus = StyleStatus(found: bool, path: JsString, uptodate: bool)

  const NOT_FOUND := StyleStatus(false, [], true)

  /**
   What lies outside the script: the base directory set from QML, how Qt resolves a path, and
   which paths answer a request with status 200.
   */
  datatype World = World(
    dataBaseDirectory: JsString, resolvedUrl: JsString -> JsString, served: JsString -> bool)

  // ---------- Cache keys ----------

  /** A raster size as string concatenation prints it; None is `null`. */
  function SizeString(size: Option<int>): JsString {
    if size.None? then Js("null") else NumberString(size.value)
  }

  function CacheKey(style: JsString, size: Option<int>): JsString {
    style + [DASH] + SizeString(size)
  }

  /** A style key with the sign of a negative size moved into it. */
  function KeyStem(style: JsString, size: Option<int>): JsString {
    if size.Some? && size.value < 0 then style + [DASH] else style
  }

  function KeyTail(size: Option<int>): (s: JsString)
    ensures s != [] && DASH !in s
  {
    if size.None? then Js("null") else Radix(if size.value < 0 then -size.value else size.value, 10)
  }

  lemma {:induction false} LastDash(a: JsString, x: JsString, b: JsString, y: JsString)
    requires a + [DASH] + x == b + [DASH] + y
    requires DASH !in x && DASH !in y
    ensures a == b && x == y
  {
    var s := a + [DASH] + x;
    assert |s| == |a| + 1 + |x| == |b| + 1 + |y|;
    assert s[|a|] == DASH && s[|b|] == DASH;
    assert forall i :: |a| < i < |s| ==> s[i] == x[i - |a| - 1];
    assert forall i :: |b| < i < |s| ==> s[i] == y[i - |b| - 1];
    assert |a| == |b|;
    assert a == s[..|a|] == b;
    assert x == s[|a| + 1..] == y;
  }

  lemma {:induction false} KeyTailInjective(x: Option<int>, y: Option<int>)
    requires KeyTail(x) == KeyTail(y)
    ensures x.None? <==> y.None?
    ensures x.Some? ==> x.value == y.value || x.value == -y.value
  {
    assert x.Some? ==> IsDigit(KeyTail(x)[0]);
    assert y.Some? ==> IsDigit(KeyTail(y)[0]);
    if x.Some? { RadixRoundTrip(if x.value < 0 then -x.value else x.value, 10); }
    if y.Some? { RadixRoundTrip(if y.value < 0 then -y.value else y.value, 10); }
    var n := Js("null");
    assert n[0] == 'n' as int;
  }

  /**
   Exactly when two cache keys coincide: same style key and size, or opposite sizes whose
   minus sign is the last character of the other style key.
   */
  lemma {:induction false} CacheKeyKernel(k: JsString, x: Option<int>, l: JsString, y: Option<int>)
    ensures CacheKey(k, x) == CacheKey(l, y) <==>
      || (k == l && x == y)
      || (x.Some? && y.Some? && x.value < 0 && x.value == -y.value && l == k + [DASH])
      || (x.Some? && y.Some? && y.value < 0 && x.value == -y.value && k == l + [DASH])
  {
    KeySplit(k, x);
    KeySplit(l, y);
    if CacheKey(k, x) == CacheKey(l, y) {
      LastDash(KeyStem(k, x), KeyTail(x), KeyStem(l, y), KeyTail(y));
      KeyTailInjective(x, y);
    }
  }

  lemma {:induction false} KeySplit(k: JsString, x: Option<int>)
    ensures CacheKey(k, x) == KeyStem(k, x) + [DASH] + KeyTail(x)
  {
    if x.Some? && x.value < 0 {
      var tail := KeyTail(x);
      assert k + [DASH] + ([DASH] + tail) == k + [DASH] + [DASH] + tail;
    }
  }

  /** For the sizes the engine passes on, the key is injective whatever dashes the style key has. */
  lemma {:induction false} CacheKeyInjective(k: JsString, x: Option<int>, l: JsString, y: Option<int>)
    requires (x.Some? ==> x.value >= 0) && (y.Some? ==> y.value >= 0)
    ensures CacheKey(k, x) == CacheKey(l, y) ==> k == l && x == y
  {
    CacheKeyKernel(k, x, l, y);
  }

  /** The key written under the unset variable `path`: the string "undefined". */
  function StrayKey(): JsString { Js("undefined") }

  lemma {:induction false} StrayKeyIsNoCacheKey(k: JsString, x: Option<int>)
    ensures CacheKey(k, x) != StrayKey()
  {
    assert CacheKey(k, x)[|k|] == DASH;
    assert DASH !in StrayKey();
  }

  /** No two styles have the same key. */
  ghost predicate UniqueKeys(styles: set<Style>) {
    forall s, t :: s in styles && t in styles && s.key == t.key ==> s == t
  }

  /** Styles of which a version search can find something at all. */
  predicate Searchable(s: Style) { !s.kind.System? && s.versions != [] }

  /**
   Two styles that a negative size of the first can confuse: the second's key is the first's with
   a dash behind it, and some cache holds entries of one of them or of both.
   */
  predicate Confusable(t: Style, s: Style) {
    && s.key == t.key + [DASH]
    && (Searchable(t) || Searchable(s) || (t.kind.Raster? && s.kind.Raster?))
  }

  /** No two styles of the set can be confused. */
  ghost predicate Separate(styles: set<Style>) {
    forall t, s :: t in styles && s in styles ==> !Confusable(t, s)
  }

  /** Sizes whose keys cannot be mistaken: all but the negative ones of a style with a confusable partner. */
  ghost predicate Admissible(styles: set<Style>, s: Style, size: Option<int>) {
    size.None? || size.value >= 0 || forall u :: u in styles ==> !Confusable(s, u)
  }

  lemma {:induction false} KeysIdentify(styles: set<Style>, s: Style, x: Option<int>, t: Style, y: Option<int>)
    requires UniqueKeys(styles) && s in styles && t in styles
    requires Admissible(styles, s, x) && Admissible(styles, t, y)
    requires Searchable(s) || Searchable(t) || (s.kind.Raster? && t.kind.Raster?)
    ensures CacheKey(s.key, x) == CacheKey(t.key, y) ==> s == t && x == y
  {
    CacheKeyKernel(s.key, x, t.key, y);
  }

  /** The style keys that ship with the script; the last one is the system style's. */
  predicate IsShippedKey(key: JsString) {
    || key == Js("openmoji") || key == Js("twemoji") || key == Js("microsoft-3D-fluent") || key == Js("google")
    || key == Js("whatsapp") || key == Js("apple") || key == Js("")
  }

  /** With the shipped keys, sizes of either sign are admissible. */
  lemma {:induction false} ShippedStylesAreSeparate(styles: set<Style>)
    requires forall s :: s in styles ==> IsShippedKey(s.key)
    ensures Separate(styles)
  {
    forall t, s | t in styles && s in styles ensures !Confusable(t, s) {
      assert |s.key| > 0 ==> s.key[|s.key| - 1] != DASH;
      assert (t.key + [DASH])[|t.key|] == DASH;
    }
  }

  // ---------- Looking for a style without caches ----------

  function BasePath(w: World, s: Style): JsString {
    w.dataBaseDirectory + Js("/") + Js("sailor-emoji") + Js("/") + s.key
  }

  function StripScheme(path: JsString): JsString {
    if |path| >= 7 && path[..7] == Js("file://") then path[7..] else path
  }

  /** The path asked for, before Qt resolves it. */
  function RequestedPath(w: World, s: Style, size: Option<int>, version: JsString): JsString {
    if s.kind.Raster? then BasePath(w, s) + Js("/") + version + Js("/") + SizeString(size)
    else BasePath(w, s) + Js("/") + version
  }

  function VersionPath(w: World, s: Style, size: Option<int>, version: JsString): JsString {
    StripScheme(w.resolvedUrl(RequestedPath(w, s, size, version)))
  }

  lemma {:induction false} StripsScheme(p: JsString)
    ensures StripScheme(Js("file://") + p) == p
  {
    var url := Js("file://") + p;
    assert url[..7] == Js("file://") && url[7..] == p;
  }

  /** A path that Qt resolves to something else than a file URL is kept as it is. */
  lemma {:induction false} OtherUrlPath(w: World, s: Style, size: Option<int>, version: JsString, url: JsString)
    requires w.resolvedUrl(RequestedPath(w, s, size, version)) == url && !(Js("file://") <= url)
    ensures VersionPath(w, s, size, version) == url
  {
    assert |url| >= 7 ==> url[..7] <= url;
  }

  const SLASH: CodeUnit := 0x2F

  /**
   Where a version lies: below the base directory in `sailor-emoji`, the style's key, the version
   and, for raster styles, the printed size.
   */
  function Directories(w: World, s: Style, size: Option<int>, version: JsString): seq<JsString> {
    Split(w.dataBaseDirectory, SLASH) + [Js("sailor-emoji")] + Split(s.key, SLASH) + Split(version, SLASH)
    + if s.kind.Raster? then [SizeString(size)] else []
  }

  lemma {:induction false} SizeStringIs(size: Option<int>)
    ensures size.Some? ==> IsNumber(SizeString(size), size.value)
    ensures size.None? ==> SizeString(size) == Js("null")
    ensures SLASH !in SizeString(size)
  {
    if size.Some? { NumberExact(SizeString(size), size.value); }
    assert !IsDigit(SLASH);
  }

  /** The requested path leads through exactly these directories. */
  lemma {:induction false} RequestedDirectories(w: World, s: Style, size: Option<int>, version: JsString)
    ensures Split(RequestedPath(w, s, size, version), SLASH) == Directories(w, s, size, version)
  {
    var base, sub, q := w.dataBaseDirectory, Js("sailor-emoji"), Js("/");
    assert q == [SLASH];
    assert SLASH !in sub;
    SplitConcat(base, sub, SLASH);
    SplitFirst(sub, [], SLASH);
    SplitConcat(base + q + sub, s.key, SLASH);
    SplitConcat(BasePath(w, s), version, SLASH);
    if s.kind.Raster? {
      SizeStringIs(size);
      SplitFirst(SizeString(size), [], SLASH);
      SplitConcat(BasePath(w, s) + q + version, SizeString(size), SLASH);
    }
  }

  /** Where Qt makes a file URL of a path, the scheme comes off again and the plain directories are kept. */
  lemma {:induction false} FileUrlPath(w: World, s: Style, size: Option<int>, version: JsString)
    requires var p := RequestedPath(w, s, size, version); w.resolvedUrl(p) == Js("file://") + p
    ensures VersionPath(w, s, size, version) == RequestedPath(w, s, size, version)
    ensures Split(VersionPath(w, s, size, version), SLASH) == Directories(w, s, size, version)
  {
    StripsScheme(RequestedPath(w, s, size, version));
    RequestedDirectories(w, s, size, version);
  }

  /** For a base directory, keys and versions as usual, the last directories are these very names. */
  lemma {:induction false} PlainDirectories(w: World, s: Style, size: Option<int>, version: JsString)
    requires SLASH !in s.key && SLASH !in version
    ensures Split(RequestedPath(w, s, size, version), SLASH)
         == Split(w.dataBaseDirectory, SLASH)
            + ([Js("sailor-emoji"), s.key, version] + if s.kind.Raster? then [SizeString(size)] else [])
  {
    RequestedDirectories(w, s, size, version);
    SplitWhole(s.key, SLASH);
    SplitWhole(version, SLASH);
    ThreeNames(Split(w.dataBaseDirectory, SLASH), Js("sailor-emoji"), s.key, version,
               if s.kind.Raster? then [SizeString(size)] else []);
  }

  lemma {:induction false} ThreeNames(base: seq<JsString>, a: JsString, b: JsString, c: JsString, last: seq<JsString>)
    ensures base + [a] + [b] + [c] + last == base + ([a, b, c] + last)
  {
    assert [a] + [b] + [c] == [a, b, c];
    assert base + [a] + [b] + [c] == base + [a, b, c];
  }

  /** Whether a version is there: its 'heart' picture answers. */
  predicate Present(w: World, s: Style, size: Option<int>, i: nat)
    requires i < |s.versions|
  {
    w.served(VersionPath(w, s, size, s.versions[i]) + Js("/2764.") + s.ext)
  }

  lemma {:induction false} FileInDirectory(p: JsString, ext: JsString, file: JsString)
    requires SLASH !in ext && Split(file, SLASH) == Split(p, SLASH) + [Js("2764.") + ext]
    ensures p + Js("/2764.") + ext == file
  {
    var name := Js("2764.") + ext;
    assert SLASH !in name;
    SplitFile(p, name);
    JoinSplit(file, SLASH);
    JoinSplit(p + [SLASH] + name, SLASH);
    ProbeName(p, ext);
  }

  lemma {:induction false} SplitFile(p: JsString, name: JsString)
    requires SLASH !in name
    ensures Split(p + [SLASH] + name, SLASH) == Split(p, SLASH) + [name]
  {
    SplitConcat(p, name, SLASH);
    SplitFirst(name, [], SLASH);
  }

  lemma {:induction false} ProbeName(p: JsString, ext: JsString)
    ensures p + Js("/2764.") + ext == p + [SLASH] + (Js("2764.") + ext)
  {
    assert Js("/2764.") == [SLASH] + Js("2764.");
  }

  /**
   Where paths are resolved to file URLs, a version is present exactly if the file `2764` with the
   style's extension is served in its directories.
   */
  lemma {:induction false} PresentIsServed(w: World, s: Style, size: Option<int>, i: nat, file: JsString)
    requires i < |s.versions| && SLASH !in s.ext
    requires var p := RequestedPath(w, s, size, s.versions[i]); w.resolvedUrl(p) == Js("file://") + p
    requires Split(file, SLASH) == Directories(w, s, size, s.versions[i]) + [Js("2764.") + s.ext]
    ensures Present(w, s, size, i) <==> w.served(file)
  {
    FileUrlPath(w, s, size, s.versions[i]);
    RequestedDirectories(w, s, size, s.versions[i]);
    FileInDirectory(RequestedPath(w, s, size, s.versions[i]), s.ext, file);
  }

  /** First version from `i` on that is present, or the number of versions. */
  function FirstPresent(w: World, s: Style, size: Option<int>, i: nat): (k: nat)
    requires i <= |s.versions|
    ensures i <= k <= |s.versions|
    ensures forall j :: i <= j < k ==> !Present(w, s, size, j)
    ensures k < |s.versions| ==> Present(w, s, size, k)
    decreases |s.versions| - i
  {
    if i == |s.versions| || Present(w, s, size, i) then i else FirstPresent(w, s, size, i + 1)
  }

  function Lookup(w: World, s: Style, size: Option<int>): StyleStatus {
    var k := FirstPresent(w, s, size, 0);
    if s.kind.System? || k == |s.versions| then NOT_FOUND
    else StyleStatus(true, VersionPath(w, s, size, s.versions[k]), k == 0)
  }

  /** Found iff some version is present, the path is that of the earliest one, up to date iff it is the first. */
  lemma {:induction false} LookupIsEarliest(w: World, s: Style, size: Option<int>, k: nat)
    requires !s.kind.System? && k < |s.versions|
    requires Present(w, s, size, k) && forall j :: 0 <= j < k ==> !Present(w, s, size, j)
    ensures Lookup(w, s, size) == StyleStatus(true, VersionPath(w, s, size, s.versions[k]), k == 0)
  {
    var f := FirstPresent(w, s, size, 0);
    assert !(k < f) && !(f < k);
  }

  lemma {:induction false} LookupFails(w: World, s: Style, size: Option<int>)
    ensures !Lookup(w, s, size).found <==>
      s.kind.System? || forall i :: 0 <= i < |s.versions| ==> !Present(w, s, size, i)
    ensures !Lookup(w, s, size).found ==> Lookup(w, s, size) == NOT_FOUND
  {
    var f := FirstPresent(w, s, size, 0);
    if f < |s.versions| { assert Present(w, s, size, f); }
  }

  lemma {:induction false} FoundIsSearchable(w: World, s: Style, size: Option<int>)
    requires Lookup(w, s, size).found
    ensures Searchable(s)
  {
  }

  // ---------- Installation status ----------

  function ExpectedSizes(s: Style, rasterSizes: seq<int>): seq<Option<int>> {
    if s.kind.Raster? then seq(|rasterSizes|, i requires 0 <= i < |rasterSizes| => Some(rasterSizes[i]))
    else [None]
  }

  predicate SomeFound(statuses: seq<StyleStatus>) {
    exists i :: 0 <= i < |statuses| && statuses[i].found
  }

  predicate SomeMissing(statuses: seq<StyleStatus>) {
    exists i :: 0 <= i < |statuses| && !statuses[i].found
  }

  predicate SomeOutdated(statuses: seq<StyleStatus>) {
    exists i :: 0 <= i < |statuses| && statuses[i].found && !statuses[i].uptodate
  }

  /** -1 when nothing is found, else 1 for missing sizes plus 2 for outdated ones. */
  function InstallCode(statuses: seq<StyleStatus>): int {
    if !SomeFound(statuses) then -1
    else (if SomeMissing(statuses) then 1 else 0) + (if SomeOutdated(statuses) then 2 else 0)
  }

  function FreshStatuses(w: World, s: Style, sizes: seq<Option<int>>): (r: seq<StyleStatus>)
    ensures |r| == |sizes|
    ensures forall i :: 0 <= i < |sizes| ==> r[i] == Lookup(w, s, sizes[i])
  {
    if sizes == [] then [] else [Lookup(w, s, sizes[0])] + FreshStatuses(w, s, sizes[1..])
  }

  function FreshInstallCode(w: World, sizes: seq<int>, s: Style): int {
    if s.kind.System? then 0 else InstallCode(FreshStatuses(w, s, ExpectedSizes(s, sizes)))
  }

  predicate IsMissing(w: World, s: Style, z: int) { !Lookup(w, s, Some(z)).found }

  predicate IsOutdated(w: World, s: Style, z: int) {
    Lookup(w, s, Some(z)).found && !Lookup(w, s, Some(z)).uptodate
  }

  /** Positions in the list of statuses stand for sizes. */
  lemma {:induction false} StatusesOfSizes(w: World, sizes: seq<int>, s: Style)
    requires s.kind.Raster?
    ensures var statuses := FreshStatuses(w, s, ExpectedSizes(s, sizes));
      && (SomeFound(statuses) <==> exists z :: z in sizes && !IsMissing(w, s, z))
      && (SomeMissing(statuses) <==> exists z :: z in sizes && IsMissing(w, s, z))
      && (SomeOutdated(statuses) <==> exists z :: z in sizes && IsOutdated(w, s, z))
  {
    var expected := ExpectedSizes(s, sizes);
    var statuses := FreshStatuses(w, s, expected);
    assert |statuses| == |sizes|;
    forall i | 0 <= i < |sizes|
      ensures sizes[i] in sizes && (statuses[i].found <==> !IsMissing(w, s, sizes[i]))
      ensures statuses[i].found && !statuses[i].uptodate <==> IsOutdated(w, s, sizes[i])
    {
      assert statuses[i] == Lookup(w, s, expected[i]) && expected[i] == Some(sizes[i]);
    }
    forall z | z in sizes
      ensures exists i :: 0 <= i < |statuses| && sizes[i] == z
    {
      var i :| 0 <= i < |sizes| && sizes[i] == z;
    }
  }

  /**
   What the code says about a raster style: nothing of it is there, or else whether some raster size
   is missing and whether some size is only there in an older version.
   */
  lemma {:induction false} RasterInstallCode(w: World, sizes: seq<int>, s: Style)
    requires s.kind.Raster?
    ensures FreshInstallCode(w, sizes, s) ==
      if forall z :: z in sizes ==> IsMissing(w, s, z) then -1
      else ((if exists z :: z in sizes && IsMissing(w, s, z) then 1 else 0)
            + (if exists z :: z in sizes && IsOutdated(w, s, z) then 2 else 0))
  {
    StatusesOfSizes(w, sizes, s);
  }

  /** A vector style is one search, and the system style is always there. */
  lemma {:induction false} OtherInstallCode(w: World, sizes: seq<int>, s: Style)
    requires !s.kind.Raster?
    ensures FreshInstallCode(w, sizes, s) ==
      if s.kind.System? then 0
      else if !Lookup(w, s, None).found then -1 else if Lookup(w, s, None).uptodate then 0 else 2
  {
    var statuses := FreshStatuses(w, s, [None]);
    assert |statuses| == 1 && statuses[0] == Lookup(w, s, None);
  }

  // ---------- Choosing a raster size ----------

  datatype Choice = Choice(source: int, effective: int)

  /** The size list as shipped, largest first. */
  predicate DecreasingPositive(sizes: seq<int>) {
    && |sizes| > 0
    && (forall i :: 0 <= i < |sizes| ==> sizes[i] > 0)
    && (forall i, j :: 0 <= i < j < |sizes| ==> sizes[i] > sizes[j])
  }

  /** The last listed size that is at least `effective`, or -1. */
  function LastAtLeast(sizes: seq<int>, effective: int): int {
    if sizes == [] then -1
    else if sizes[|sizes| - 1] >= effective then sizes[|sizes| - 1]
    else LastAtLeast(sizes[..|sizes| - 1], effective)
  }

  function Clamped(sizes: seq<int>, desired: int): int
    requires |sizes| > 0
  {
    if desired > sizes[0] then sizes[0] else desired
  }

  function Choose(sizes: seq<int>, desired: int): Choice
    requires |sizes| > 0
  {
    var effective := Clamped(sizes, desired);
    var found := LastAtLeast(sizes, effective);
    var source := if found < 0 then sizes[|sizes| - 1] else found;
    Choice(source, if effective > source then source else effective)
  }

  ghost predicate IsLastAtLeast(sizes: seq<int>, effective: int, k: int) {
    && 0 <= k < |sizes| && sizes[k] == LastAtLeast(sizes, effective)
    && forall i :: k < i < |sizes| ==> sizes[i] < effective
  }

  lemma {:induction false} LastAtLeastFinds(sizes: seq<int>, effective: int)
    requires |sizes| > 0 && sizes[0] >= effective
    ensures LastAtLeast(sizes, effective) >= effective
    ensures exists k :: IsLastAtLeast(sizes, effective, k)
  {
    var last := |sizes| - 1;
    if sizes[last] < effective {
      LastAtLeastFinds(sizes[..last], effective);
      var k :| IsLastAtLeast(sizes[..last], effective, k);
      forall i | k < i < |sizes| ensures sizes[i] < effective {
        if i < last { assert sizes[..last][i] < effective; }
      }
      assert IsLastAtLeast(sizes, effective, k);
    } else {
      assert IsLastAtLeast(sizes, effective, last);
    }
  }

  lemma {:induction false} ChoiceIsListed(sizes: seq<int>, desired: int)
    requires |sizes| > 0
    ensures Choose(sizes, desired).source in sizes
  {
    LastAtLeastFinds(sizes, Clamped(sizes, desired));
  }

  /** The least available size that needs no upscaling, for the desired size capped by the largest one. */
  lemma {:induction false} RasterChoiceOptimal(sizes: seq<int>, desired: int)
    requires DecreasingPositive(sizes)
    ensures var c := Choose(sizes, desired);
      && c.effective == (if exists z :: z in sizes && z >= desired then desired else sizes[0])
      && c.effective <= c.source && c.source in sizes
      && forall s :: s in sizes && s >= c.effective ==> s >= c.source
  {
    LastAtLeastFinds(sizes, Clamped(sizes, desired));
    assert sizes[0] in sizes && forall i :: 0 <= i < |sizes| ==> sizes[i] <= sizes[0];
  }

  /** A larger wish never gets a smaller picture. */
  lemma {:induction false} RasterChoiceMonotone(sizes: seq<int>, d: int, e: int)
    requires DecreasingPositive(sizes) && d <= e
    ensures Choose(sizes, d).source <= Choose(sizes, e).source
    ensures Choose(sizes, d).effective <= Choose(sizes, e).effective
  {
    RasterChoiceOptimal(sizes, d);
    RasterChoiceOptimal(sizes, e);
  }

  /** Capping makes the later fallback and the later clamp dead code, for any list without negative sizes. */
  lemma {:induction false} FallbackIsIdle(sizes: seq<int>, desired: int)
    requires |sizes| > 0 && forall i :: 0 <= i < |sizes| ==> sizes[i] >= 0
    ensures Choose(sizes, desired) == Choice(LastAtLeast(sizes, Clamped(sizes, desired)), Clamped(sizes, desired))
  {
    LastAtLeastFinds(sizes, Clamped(sizes, desired));
  }

  // ---------- Settings for one rewriting ----------

  datatype Settings = Settings(useSystem: bool, stylePath: JsString, effectiveSize: int)

  /** Math.round: the nearest integer, halves upwards. */
  function Round(x: real): (n: int)
    ensures n as real - 0.5 <= x < n as real + 0.5
  {
    (x + 0.5).Floor
  }

  function EffectiveSize(s: Style, size: real, maxRasterSize: int, noGrow: bool): int {
    if s.kind.Raster? && maxRasterSize > 0 then maxRasterSize
    else if noGrow then Round(size) else Round(1.15 * size)
  }

  /**
   The desired size: a positive maximal size decides for raster styles; otherwise it is the integer
   nearest to the wish, or to 1.15 times the wish, halves upwards.
   */
  predicate IsDesiredSize(s: Style, size: real, maxRasterSize: int, noGrow: bool, n: int) {
    if s.kind.Raster? && 0 < maxRasterSize then n == maxRasterSize
    else if noGrow then n as real - 0.5 <= size < n as real + 0.5
    else 100.0 * (n as real - 0.5) <= 115.0 * size < 100.0 * (n as real + 0.5)
  }

  lemma {:induction false} EffectiveSizeExact(s: Style, size: real, maxRasterSize: int, noGrow: bool, n: int)
    ensures EffectiveSize(s, size, maxRasterSize, noGrow) == n <==> IsDesiredSize(s, size, maxRasterSize, noGrow, n)
  {
    if !(s.kind.Raster? && 0 < maxRasterSize) {
      var x := if noGrow then size else 1.15 * size;
      assert Round(x) == n <==> n as real - 0.5 <= x < n as real + 0.5;
    }
  }

  datatype RasterEntry = RasterEntry(source: int, effective: int, path: JsString)

  function FreshEntry(w: World, sizes: seq<int>, s: Style, desired: int): RasterEntry
    requires |sizes| > 0
  {
    var c := Choose(sizes, desired);
    RasterEntry(c.source, c.effective, Lookup(w, s, Some(c.source)).path)
  }

  function SettingsOf(stylePath: JsString, effectiveSize: int): Settings {
    Settings(stylePath == [], stylePath, effectiveSize)
  }

  /** getParseSettings without any cache. */
  function FreshSettings(w: World, sizes: seq<int>, s: Style, size: real, maxRasterSize: int, noGrow: bool): Settings
    requires |sizes| > 0
  {
    var desired := EffectiveSize(s, size, maxRasterSize, noGrow);
    match s.kind
    case Raster => var e := FreshEntry(w, sizes, s, desired); SettingsOf(e.path, e.effective)
    case System => Settings(true, [], desired)
    case Vector => SettingsOf(Lookup(w, s, None).path, desired)
  }

  /** Settings of a vector style and of the system style: the version found decides, and the wish alone the size. */
  lemma {:induction false} OtherSettings(w: World, sizes: seq<int>, s: Style, size: real, maxRasterSize: int,
                                         noGrow: bool)
    requires |sizes| > 0 && !s.kind.Raster?
    ensures var r := FreshSettings(w, sizes, s, size, maxRasterSize, noGrow);
      && r.stylePath == (if s.kind.System? then [] else Lookup(w, s, None).path)
      && (r.useSystem <==> r.stylePath == [])
      && r.effectiveSize == EffectiveSize(s, size, maxRasterSize, noGrow)
  {
  }

  /**
   Settings of an installed raster style: pictures come from the least size that needs no
   upscaling, and are shown at the desired size capped by the largest available one.
   */
  lemma {:induction false} RasterSettings(w: World, sizes: seq<int>, s: Style, size: real, maxRasterSize: int,
                                          noGrow: bool, source: int)
    requires DecreasingPositive(sizes) && s.kind.Raster?
    requires var wanted := EffectiveSize(s, size, maxRasterSize, noGrow);
      && source in sizes && (wanted <= source || source == sizes[0])
      && forall z :: z in sizes && z < source ==> z < wanted
    ensures var r := FreshSettings(w, sizes, s, size, maxRasterSize, noGrow);
      && r.stylePath == Lookup(w, s, Some(source)).path
      && r.effectiveSize == (if source < EffectiveSize(s, size, maxRasterSize, noGrow) then source
                             else EffectiveSize(s, size, maxRasterSize, noGrow))
      && (r.useSystem <==> r.stylePath == [])
  {
    var wanted := EffectiveSize(s, size, maxRasterSize, noGrow);
    RasterChoiceOptimal(sizes, wanted);
    var c := Choose(sizes, wanted);
    assert !(c.source < source);
    assert c.source == source;
  }
}
