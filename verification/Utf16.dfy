/**
 UTF-16 as defined by sections 2.1 and 2.2 of RFC 2781: the independent reference
 against which the engine's decoder loop is compared.
 */
module Utf16 {
  import opened JsStrings
  import opened Wrappers

  predicate IsHigh(u: CodeUnit) { 0xD800 <= u <= 0xDBFF }

  predicate IsLow(u: CodeUnit) { 0xDC00 <= u <= 0xDFFF }

  predicate IsScalar(v: nat) { v < 0xD800 || 0xE000 <= v <= 0x10FFFF }

  predicate AllScalar(vs: seq<nat>) { forall i :: 0 <= i < |vs| ==> IsScalar(vs[i]) }

  /** Section 2.1 of RFC 2781. */
  function EncodeOne(v: nat): (s: JsString)
    requires IsScalar(v)
  {
    if v < 0x10000 then [v]
    else var u := v - 0x10000; [0xD800 + u / 0x400, 0xDC00 + u % 0x400]
  }

  function Encode(vs: seq<nat>): JsString
    requires AllScalar(vs)
  {
    if vs == [] then [] else EncodeOne(vs[0]) + Encode(vs[1..])
  }

  /** Steps 4 and 5 of section 2.2: ten low-order bits of each unit, plus 0x10000. */
  function PairValue(w1: CodeUnit, w2: CodeUnit): nat {
    w1 % 0x400 * 0x400 + w2 % 0x400 + 0x10000
  }

  lemma {:induction false} PairEncodes(w1: CodeUnit, w2: CodeUnit)
    requires IsHigh(w1) && IsLow(w2)
    ensures 0x10000 <= PairValue(w1, w2) <= 0x10FFFF
    ensures PairValue(w1, w2) == 0x10000 + (w1 - 0xD800) * 0x400 + (w2 - 0xDC00)
    ensures EncodeOne(PairValue(w1, w2)) == [w1, w2]
  {
    assert w1 % 0x400 == w1 - 0xD800 && w2 % 0x400 == w2 - 0xDC00;
  }

  /** Section 2.2 of RFC 2781, repeated to the end of the text; None where the text is in error. */
  function RfcDecode(s: JsString): Option<seq<nat>> {
    if s == [] then Some([])
    else if !IsHigh(s[0]) && !IsLow(s[0]) then
      match RfcDecode(s[1..])
      case None => None
      case Some(vs) => Some([s[0]] + vs)
    else if IsLow(s[0]) || |s| == 1 || !IsLow(s[1]) then None
    else
      match RfcDecode(s[2..])
      case None => None
      case Some(vs) => Some([PairValue(s[0], s[1])] + vs)
  }

  predicate WellFormed(s: JsString) { RfcDecode(s).Some? }

  /** Decoding undoes encoding on every sequence of scalar values. */
  lemma {:induction false} DecodeEncode(vs: seq<nat>)
    requires AllScalar(vs)
    ensures RfcDecode(Encode(vs)) == Some(vs)
  {
    if vs != [] {
      var s := Encode(vs);
      DecodeEncode(vs[1..]);
      assert s[|EncodeOne(vs[0])|..] == Encode(vs[1..]);
      assert vs == [vs[0]] + vs[1..];
    }
  }

  /** Encoding undoes decoding on every well-formed text, and decoding yields scalar values only. */
  lemma {:induction false} EncodeDecode(s: JsString)
    requires WellFormed(s)
    ensures AllScalar(RfcDecode(s).value)
    ensures Encode(RfcDecode(s).value) == s
  {
    if s != [] {
      var vs := RfcDecode(s).value;
      if IsHigh(s[0]) {
        EncodeDecode(s[2..]);
        PairEncodes(s[0], s[1]);
        assert vs[1..] == RfcDecode(s[2..]).value;
        assert s == [s[0], s[1]] + s[2..];
      } else {
        EncodeDecode(s[1..]);
        assert vs[1..] == RfcDecode(s[1..]).value;
        assert s == [s[0]] + s[1..];
      }
    }
  }

  /** Deleting every occurrence of a unit, as `replace` with a one-unit global pattern does. */
  function Delete(s: JsString, u: CodeUnit): JsString {
    if s == [] then [] else if s[0] == u then Delete(s[1..], u) else [s[0]] + Delete(s[1..], u)
  }

  lemma {:induction false} DeleteRemoves(s: JsString, u: CodeUnit)
    ensures u !in Delete(s, u)
    ensures forall w :: w != u ==> (w in Delete(s, u) <==> w in s)
  {
    if s != [] { DeleteRemoves(s[1..], u); }
  }

  /** Deleting a unit that is no surrogate leaves well-formed text well formed. */
  lemma {:induction false} DeleteKeepsWellFormed(s: JsString, u: CodeUnit)
    requires WellFormed(s) && !IsHigh(u) && !IsLow(u)
    ensures WellFormed(Delete(s, u))
  {
    if s != [] {
      if IsHigh(s[0]) {
        DeleteKeepsWellFormed(s[2..], u);
        var d := Delete(s, u);
        assert s[1..][1..] == s[2..];
        assert Delete(s[1..], u) == [s[1]] + Delete(s[2..], u);
        assert d == [s[0]] + Delete(s[1..], u);
        assert d[0] == s[0] && d[1] == s[1] && d[2..] == Delete(s[2..], u);
      } else {
        DeleteKeepsWellFormed(s[1..], u);
        if s[0] != u { assert Delete(s, u)[1..] == Delete(s[1..], u); }
      }
    }
  }
}
