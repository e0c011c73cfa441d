/**
 Which texts share their icon name with others, over all texts whatsoever: an unpaired high surrogate
 is taken together with the unit behind it, and their value may have other readings.
 */
module IconAmbiguities {
  import opened JsStrings
  import opened Utf16
  import opened IconNames

  // ---------- Taken for well-formed text ----------

  lemma {:induction false} MistakenForEncoding(s: JsString)
    requires !WellFormed(s) && AllScalar(Values(s, 0))
    ensures var t := Encode(Values(s, 0)); WellFormed(t) && t != s && Icon(t) == Icon(s)
  {
    DecodeEncode(Values(s, 0));
    ValuesRefineRfc(Encode(Values(s, 0)));
  }

  /** `t` is well-formed text that the name of `s` stands for as well. */
  predicate MistakenFor(s: JsString, t: JsString) {
    WellFormed(t) && t != s && Icon(t) == Icon(s)
  }

  /** A text is taken for some other, well-formed one exactly when it is ill-formed and its values are scalar. */
  lemma {:induction false} MistakableExact(s: JsString)
    ensures (exists t :: MistakenFor(s, t)) <==> !WellFormed(s) && AllScalar(Values(s, 0))
  {
    if !WellFormed(s) && AllScalar(Values(s, 0)) {
      MistakenForEncoding(s);
      assert MistakenFor(s, Encode(Values(s, 0)));
    }
    forall t | MistakenFor(s, t) ensures !WellFormed(s) && AllScalar(Values(s, 0)) {
      IconDeterminesValues(s, t);
      FaithfulIffWellFormed(t);
    }
  }

  lemma {:induction false} UnpairedIllFormed(a: JsString, h: CodeUnit, c: CodeUnit, b: JsString)
    requires WellFormed(a) && IsHigh(h) && !IsLow(c)
    ensures !WellFormed(a + [h, c] + b)
  {
    var s := a + [h, c] + b;
    assert s[|a|] == h && s[|a| + 1] == c;
    if WellFormed(s) { WellFormedIsPaired(s); }
  }

  /**
   An unpaired high surrogate between well-formed texts: together with its successor it is taken for
   their value, and the whole for the well-formed text with that value in their place.
   */
  lemma {:induction false} UnpairedCollides(a: JsString, h: CodeUnit, c: CodeUnit, b: JsString)
    requires WellFormed(a) && WellFormed(b) && IsHigh(h) && !IsLow(c)
    ensures var s := a + [h, c] + b;
      && Values(s, 0) == RfcDecode(a).value + [Combine(h, c)] + RfcDecode(b).value
      && ((exists t :: MistakenFor(s, t)) <==> IsScalar(Combine(h, c)))
  {
    var s := a + [h, c] + b;
    ValuesConcat(a + [h, c], b, 0);
    ValuesConcat(a, [h, c], 0);
    ValuesRefineRfc(a);
    ValuesRefineRfc(b);
    PairRange(h, c);
    PendingConcat(a, h, c);
    EncodeDecode(a);
    EncodeDecode(b);
    UnpairedIllFormed(a, h, c, b);
    MistakableExact(s);
    var vs := RfcDecode(a).value + [Combine(h, c)] + RfcDecode(b).value;
    assert vs[|RfcDecode(a).value|] == Combine(h, c);
  }

  lemma {:induction false} PendingConcat(a: JsString, h: CodeUnit, c: CodeUnit)
    requires WellFormed(a) && IsHigh(h)
    ensures Pending(a + [h, c], 0) == 0
  {
    var s := a + [h, c];
    if a == [] {
      assert s == [h, c] && s[1..] == [c] && [c][1..] == [];
      assert Pending([c], h) == Pending([], 0);
    } else {
      var n := if IsHigh(a[0]) then 2 else 1;
      assert s[n..] == a[n..] + [h, c];
      if n == 2 { assert s[1..][1..] == s[2..]; }
      PendingConcat(a[n..], h, c);
    }
  }

  // ---------- Texts whose name is theirs alone ----------

  /** The units the loop has pushed a value for: all but a high surrogate left pending at the end. */
  function Consumed(s: JsString): JsString {
    if s == [] then []
    else if !IsHigh(s[0]) then [s[0]] + Consumed(s[1..])
    else if |s| == 1 then []
    else [s[0], s[1]] + Consumed(s[2..])
  }

  lemma {:induction false} ConsumedIs(s: JsString)
    ensures Consumed(s) == if Pending(s, 0) == 0 then s else s[..|s| - 1]
    ensures Pending(s, 0) != 0 ==> s != [] && s[|s| - 1] == Pending(s, 0)
  {
    if |s| == 1 {
      assert s[1..] == [];
    } else if |s| > 1 && IsHigh(s[0]) {
      ConsumedIs(s[2..]);
      ConsumedStep(s, 2);
    } else if |s| > 1 {
      ConsumedIs(s[1..]);
      ConsumedStep(s, 1);
    }
  }

  lemma {:induction false} ConsumedStep(s: JsString, n: nat)
    requires |s| > 1 && n == if IsHigh(s[0]) then 2 else 1
    ensures Consumed(s) == s[..n] + Consumed(s[n..]) && Pending(s, 0) == Pending(s[n..], 0)
    ensures s == s[..n] + s[n..] && (|s| > n ==> s[..|s| - 1] == s[..n] + s[n..][..|s| - n - 1])
  {
    if n == 2 {
      assert s[1..][1..] == s[2..] && s[..2] == [s[0], s[1]];
      assert Pending(s[1..], s[0]) == Pending(s[1..][1..], 0);
    } else {
      assert s[..1] == [s[0]];
    }
  }

  /** What the loop reads as one value: a unit that is no high surrogate, or a high one and any other unit. */
  predicate IsChunk(chunk: JsString) {
    (|chunk| == 1 && !IsHigh(chunk[0])) || (|chunk| == 2 && IsHigh(chunk[0]))
  }

  function ChunkValue(chunk: JsString): nat
    requires IsChunk(chunk)
  {
    if |chunk| == 1 then chunk[0] else Combine(chunk[0], chunk[1])
  }

  lemma {:induction false} ChunkFirst(chunk: JsString, rest: JsString)
    requires IsChunk(chunk)
    ensures Values(chunk + rest, 0) == [ChunkValue(chunk)] + Values(rest, 0)
    ensures Consumed(chunk + rest) == chunk + Consumed(rest)
  {
    var s := chunk + rest;
    if |chunk| == 1 {
      assert s[1..] == rest;
    } else {
      assert s[1..] == [chunk[1]] + rest && s[1..][1..] == rest && s[2..] == rest;
    }
  }

  /** The first chunk of a text that has one. */
  function FirstChunk(s: JsString): (chunk: JsString)
    requires Values(s, 0) != []
    ensures IsChunk(chunk) && chunk <= s
  {
    if IsHigh(s[0]) then (assert |s| > 1 by { ValuesEmpty(s); } s[..2]) else s[..1]
  }

  /** Values with one reading only: too small for a pair, or too large for any but the last high surrogate. */
  predicate HasOneReading(v: nat) { v < 0x2400 || 0x111C00 <= v }

  lemma {:induction false} OneReading(a: JsString, b: JsString)
    requires IsChunk(a) && IsChunk(b) && ChunkValue(a) == ChunkValue(b) && HasOneReading(ChunkValue(a))
    ensures a == b
  {
    var v := ChunkValue(a);
    if |a| == 2 && |b| == 2 {
      var h: int, l: int, m: int, n: int := a[0], a[1], b[0], b[1];
      assert (h - 0xD800) * 0x400 + l == v - 0x2400 && (m - 0xD800) * 0x400 + n == v - 0x2400;
      assert h == 0xDBFF && m == 0xDBFF;
    }
  }

  /** Every other value has a second reading. */
  lemma {:induction false} OtherReading(a: JsString) returns (b: JsString)
    requires IsChunk(a) && !HasOneReading(ChunkValue(a))
    ensures IsChunk(b) && ChunkValue(b) == ChunkValue(a) && b != a
  {
    var v := ChunkValue(a);
    if |a| == 1 {
      b := [0xD800, v - 0x2400];
    } else if v <= 0xFFFF && !IsHigh(v) {
      b := [v];
    } else if a[0] > 0xD800 && a[1] < 0xFC00 {
      b := [a[0] - 1, a[1] + 0x400];
    } else {
      b := [a[0] + 1, a[1] - 0x400];
    }
  }

  predicate AllHaveOneReading(vs: seq<nat>) {
    forall i :: 0 <= i < |vs| ==> HasOneReading(vs[i])
  }

  lemma {:induction false} ReadOneWay(s: JsString, t: JsString)
    requires Values(s, 0) == Values(t, 0) && AllHaveOneReading(Values(s, 0))
    ensures Consumed(s) == Consumed(t)
    decreases |s|
  {
    if Values(s, 0) == [] {
      ValuesEmpty(s);
      ValuesEmpty(t);
    } else {
      var a, b := FirstChunk(s), FirstChunk(t);
      var x, y := s[|a|..], t[|b|..];
      assert s == a + x && t == b + y;
      ChunkFirst(a, x);
      ChunkFirst(b, y);
      assert Values(s, 0)[0] == Values(t, 0)[0];
      OneReading(a, b);
      assert Values(x, 0) == Values(s, 0)[1..] && Values(y, 0) == Values(t, 0)[1..];
      ReadOneWay(x, y);
    }
  }

  lemma {:induction false} ReadOtherwise(s: JsString) returns (t: JsString)
    requires !AllHaveOneReading(Values(s, 0))
    ensures Values(t, 0) == Values(s, 0) && Consumed(t) != Consumed(s)
    decreases |s|
  {
    var a := FirstChunk(s);
    var x := s[|a|..];
    assert s == a + x;
    ChunkFirst(a, x);
    if HasOneReading(ChunkValue(a)) {
      assert forall i :: 0 < i < |Values(s, 0)| ==> Values(s, 0)[i] == Values(x, 0)[i - 1];
      var y := ReadOtherwise(x);
      ChunkFirst(a, y);
      t := a + y;
      assert Consumed(t)[|a|..] == Consumed(y) && Consumed(s)[|a|..] == Consumed(x);
    } else {
      var b := OtherReading(a);
      ChunkFirst(b, x);
      t := b + x;
      if |a| == |b| { assert Consumed(t)[..|b|] == b && Consumed(s)[..|a|] == a; }
    }
  }

  /** No other text has the name, but for a high surrogate left pending at the end. */
  ghost predicate NameIsUnique(s: JsString) {
    forall t :: Icon(t) == Icon(s) ==> Consumed(t) == Consumed(s)
  }

  /**
   Over all texts, well formed or not, a name belongs to one text exactly when none of its values
   lies between 0x2400 and 0x111BFF; every such value can be read in at least two ways.
   */
  lemma {:induction false} UniqueExact(s: JsString)
    ensures NameIsUnique(s) <==> AllHaveOneReading(Values(s, 0))
  {
    if AllHaveOneReading(Values(s, 0)) {
      forall t | Icon(t) == Icon(s) ensures Consumed(t) == Consumed(s) {
        IconDeterminesValues(s, t);
        ReadOneWay(s, t);
      }
    } else {
      var t := ReadOtherwise(s);
      IconDeterminesValues(s, t);
    }
  }
}
