/**
 * Java's character classes and integer text conversions as the core uses
 * them: `Character.isDigit`, `Character.isWhitespace`, `Character.digit`
 * (radix 10), `Integer.toString` and `Integer.parseInt`.
 */
module Numbers {
  import opened Wrappers

  const MinInt: int := -0x8000_0000
  const MaxInt: int := 0x7FFF_FFFF

  /** A value of Java's 32-bit `int`. */
  predicate InInt32(n: int) {
    MinInt <= n <= MaxInt
  }

  /**
   * The code point of the zero of each run of ten decimal digits (Unicode
   * general category Nd) in the Basic Multilingual Plane, which is where a
   * Java `char` lives.
   */
  const DigitZeros: seq<int> := [
    0x0030, 0x0660, 0x06F0, 0x07C0, 0x0966, 0x09E6, 0x0A66, 0x0AE6, 0x0B66,
    0x0BE6, 0x0C66, 0x0CE6, 0x0D66, 0x0DE6, 0x0E50, 0x0ED0, 0x0F20, 0x1040,
    0x1090, 0x17E0, 0x1810, 0x1946, 0x19D0, 0x1A80, 0x1A90, 0x1B50, 0x1BB0,
    0x1C40, 0x1C50, 0xA620, 0xA8D0, 0xA900, 0xA9D0, 0xA9F0, 0xAA50, 0xABF0,
    0xFF10]

  /** `Character.digit(c, 10)`: the value of a decimal digit, or none. */
  function DigitValue(c: char): (r: Option<nat>)
    ensures r.Some? ==> r.value < 10
    ensures '0' <= c <= '9' ==> r == Some(c as int - '0' as int)
  {
    DigitValueFrom(c, 0)
  }

  function DigitValueFrom(c: char, k: nat): (r: Option<nat>)
    requires k <= |DigitZeros|
    ensures r.Some? ==> r.value < 10
    ensures k == 0 && '0' <= c <= '9' ==> r == Some(c as int - '0' as int)
    decreases |DigitZeros| - k
  {
    if k == |DigitZeros| then None
    else if DigitZeros[k] <= c as int < DigitZeros[k] + 10 then Some(c as int - DigitZeros[k])
    else DigitValueFrom(c, k + 1)
  }

  /** `Character.isDigit`. */
  predicate IsDigit(c: char) {
    DigitValue(c).Some?
  }

  lemma {:induction false} DigitValueFromBelow(c: char, k: nat)
    requires 1 <= k <= |DigitZeros| && c as int < 0x0660
    ensures DigitValueFrom(c, k) == None
    decreases |DigitZeros| - k
  {
    if k < |DigitZeros| {
      assert DigitZeros[k] >= 0x0660;
      DigitValueFromBelow(c, k + 1);
    }
  }

  /** Below U+0660 the only digits are the ASCII ones. */
  lemma IsDigitBelowArabic(c: char)
    requires c as int < 0x0660
    ensures IsDigit(c) <==> '0' <= c <= '9'
  {
    DigitValueFromBelow(c, 1);
  }

  /**
   * `Character.isWhitespace`: the space, line and paragraph separators other
   * than the non-breaking ones, and the controls U+0009 to U+000D and
   * U+001C to U+001F.
   */
  predicate IsWhitespace(c: char) {
    var n := c as int;
    || 0x09 <= n <= 0x0D
    || 0x1C <= n <= 0x1F
    || n == 0x20 || n == 0x1680
    || (0x2000 <= n <= 0x200A && n != 0x2007)
    || n == 0x2028 || n == 0x2029 || n == 0x205F || n == 0x3000
  }

  /** The ASCII digit of a value below ten. */
  function DigitChar(d: nat): char
    requires d < 10
  {
    ('0' as int + d) as char
  }

  /** The decimal digits of `n` with no leading zero (`"0"` for zero). */
  function NatToString(n: nat): string
    decreases n
  {
    if n < 10 then [DigitChar(n)]
    else NatToString(n / 10) + [DigitChar(n % 10)]
  }

  /** `Integer.toString`: a minus sign for negatives, then the digits. */
  function IntToString(n: int): string {
    if n < 0 then "-" + NatToString(-n) else NatToString(n)
  }

  predicate AllDigits(s: string) {
    forall i :: 0 <= i < |s| ==> IsDigit(s[i])
  }

  /** The value of a string of decimal digits, read left to right. */
  function DigitsValue(s: string): nat
    requires AllDigits(s)
    decreases |s|
  {
    if s == [] then 0
    else
      assert IsDigit(s[|s| - 1]);
      DigitsValue(s[..|s| - 1]) * 10 + DigitValue(s[|s| - 1]).value
  }

  /**
   * `Integer.parseInt(s)`: an optional sign, at least one digit, and a
   * value within 32 bits; `None` stands for the NumberFormatException.
   */
  function ParseInt(s: string): Option<int> {
    if s == [] then None
    else
      var negative := s[0] == '-';
      var digits := if s[0] == '-' || s[0] == '+' then s[1..] else s;
      if digits == [] || !AllDigits(digits) then None
      else
        var magnitude: int := DigitsValue(digits);
        var v := if negative then -magnitude else magnitude;
        if InInt32(v) then Some(v) else None
  }

  lemma {:induction false} NatToStringDigits(n: nat)
    ensures NatToString(n) != []
    ensures forall i :: 0 <= i < |NatToString(n)| ==> '0' <= NatToString(n)[i] <= '9'
    ensures NatToString(n)[0] != '-' && NatToString(n)[0] != '+'
    decreases n
  {
    if n >= 10 {
      NatToStringDigits(n / 10);
    }
  }

  lemma {:induction false} NatToStringValue(n: nat)
    ensures AllDigits(NatToString(n))
    ensures DigitsValue(NatToString(n)) == n
    decreases n
  {
    NatToStringDigits(n);
    var s := NatToString(n);
    if n >= 10 {
      NatToStringValue(n / 10);
      assert s[..|s| - 1] == NatToString(n / 10);
    }
  }

  /** `Integer.parseInt` reads back what `Integer.toString` wrote. */
  lemma ParseIntToString(n: int)
    requires InInt32(n)
    ensures ParseInt(IntToString(n)) == Some(n)
  {
    var m: nat := if n < 0 then -n else n;
    NatToStringValue(m);
    NatToStringDigits(m);
    var s := IntToString(n);
    if n < 0 {
      assert s[1..] == NatToString(m);
    }
  }
}
