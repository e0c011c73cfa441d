/**
 JavaScript strings as the emoji engine sees them: sequences of 16-bit code units,
 with the number printing, joining and splitting that the engine's names rely on.
 */
module JsStrings {

  type CodeUnit = u: int | 0 <= u < 0x1_0000
  type JsString = seq<CodeUnit>

  const DASH: CodeUnit := 0x2D

  /** The code units of an ASCII literal. */
  function Js(s: string): (r: JsString)
    requires forall i :: 0 <= i < |s| ==> s[i] as int < 0x80
    ensures |r| == |s|
    ensures forall i :: 0 <= i < |s| ==> r[i] == s[i] as int
  {
    seq(|s|, i requires 0 <= i < |s| => s[i] as int)
  }

  // ---------- Number printing: Number.prototype.toString ----------

  function Digit(d: nat): (u: CodeUnit)
    requires d < 16
  {
    if d < 10 then 0x30 + d else 0x57 + d
  }

  function DigitValue(u: CodeUnit): nat {
    if 0x30 <= u <= 0x39 then u - 0x30 else if 0x61 <= u <= 0x66 then u - 0x57 else 0
  }

  predicate IsDigit(u: CodeUnit) {
    0x30 <= u <= 0x39 || 0x61 <= u <= 0x66
  }

  function Radix(n: nat, b: nat): (s: JsString)
    requires b == 10 || b == 16
    ensures s != [] && forall u :: u in s ==> IsDigit(u)
    decreases n
  {
    if n < b then [Digit(n)] else Radix(n / b, b) + [Digit(n % b)]
  }

  function ParseRadix(s: JsString, b: nat): nat {
    if s == [] then 0 else ParseRadix(s[..|s| - 1], b) * b + DigitValue(s[|s| - 1])
  }

  /** Parsing undoes printing, so distinct numbers print differently. */
  lemma {:induction false} RadixRoundTrip(n: nat, b: nat)
    requires b == 10 || b == 16
    ensures ParseRadix(Radix(n, b), b) == n
    decreases n
  {
    var s := Radix(n, b);
    if n < b {
      assert s == [Digit(n)] && s[..0] == [];
    } else {
      RadixRoundTrip(n / b, b);
      assert s[..|s| - 1] == Radix(n / b, b);
      if b == 10 { assert n == n / 10 * 10 + n % 10; } else { assert n == n / 16 * 16 + n % 16; }
    }
  }

  const ZERO: CodeUnit := 0x30

  /** The numeral of a number: lower-case digits of the base, no leading zero, and the number's value. */
  predicate IsNumeral(s: JsString, n: nat, b: nat) {
    && s != [] && (forall u :: u in s ==> 0x30 <= u <= 0x39 || (b == 16 && 0x61 <= u <= 0x66))
    && (|s| > 1 ==> s[0] != ZERO)
    && ParseRadix(s, b) == n
  }

  lemma {:induction false} RadixDigits(n: nat, b: nat)
    requires b == 10 || b == 16
    ensures forall u :: u in Radix(n, b) ==> DigitValue(u) < b
    ensures n > 0 ==> Radix(n, b)[0] != ZERO
    ensures n == 0 ==> Radix(n, b) == [ZERO]
    decreases n
  {
    if n >= b { RadixDigits(n / b, b); }
  }

  lemma {:induction false} NoLeadingZero(s: JsString, b: nat)
    requires s != [] && s[0] != ZERO && b > 0 && forall u :: u in s ==> IsDigit(u)
    ensures ParseRadix(s, b) > 0
    decreases |s|
  {
    if |s| > 1 {
      NoLeadingZero(s[..|s| - 1], b);
    } else {
      assert s[..0] == [] && s[0] in s;
    }
  }

  lemma {:induction false} NumeralIsPrinted(s: JsString, b: nat)
    requires (b == 10 || b == 16) && IsNumeral(s, ParseRadix(s, b), b)
    ensures s == Radix(ParseRadix(s, b), b)
    decreases |s|
  {
    var n, last, front := ParseRadix(s, b), s[|s| - 1], s[..|s| - 1];
    assert last in s && Digit(DigitValue(last)) == last;
    if |s| == 1 {
      assert s == [last] && front == [];
    } else {
      assert front[0] == s[0] && forall u :: u in front ==> u in s;
      NoLeadingZero(front, b);
      NumeralIsPrinted(front, b);
      var q := ParseRadix(front, b);
      assert n == q * b + DigitValue(last) && q >= 1 && n >= b;
      if b == 10 { assert n / 10 == q && n % 10 == DigitValue(last); }
      else { assert n / 16 == q && n % 16 == DigitValue(last); }
      assert s == front + [last];
    }
  }

  /** Printing is canonical: what is printed for a number is its one and only numeral. */
  lemma {:induction false} NumeralExact(s: JsString, n: nat, b: nat)
    requires b == 10 || b == 16
    ensures IsNumeral(s, n, b) <==> s == Radix(n, b)
  {
    if s == Radix(n, b) {
      RadixDigits(n, b);
      RadixRoundTrip(n, b);
    }
    if IsNumeral(s, n, b) { NumeralIsPrinted(s, b); }
  }

  /** An integer printed in base ten, as string concatenation prints it. */
  function NumberString(n: int): (s: JsString)
  {
    if n < 0 then [DASH] + Radix(-n, 10) else Radix(n, 10)
  }

  /** A decimal numeral, behind a minus sign if the integer is negative. */
  predicate IsNumber(s: JsString, n: int) {
    if n < 0 then s != [] && s[0] == DASH && IsNumeral(s[1..], -n, 10) else IsNumeral(s, n, 10)
  }

  lemma {:induction false} NumberExact(s: JsString, n: int)
    ensures IsNumber(s, n) <==> s == NumberString(n)
  {
    if n < 0 {
      if s != [] { NumeralExact(s[1..], -n, 10); }
      assert s != [] ==> s == [s[0]] + s[1..];
    } else {
      NumeralExact(s, n, 10);
    }
  }
}
