// The number formats the converters and the report write: printf-style
// fixed-width upper-case hexadecimal ("%02X", "%08X") and decimal ("%d"),
// each with the reading that gives the number back.
module Numerals {
  import opened AsmText

  function Pow16(w: nat): (p: nat)
    ensures p > 0
  {
    if w == 0 then 1 else 16 * Pow16(w - 1)
  }

  function UpperHexChar(d: nat): (c: char)
    requires d < 16
    ensures IsHexDigit(c) && HexDigitValue(c) == d
    ensures c == "0123456789ABCDEF"[d]
  {
    if d < 10 then ('0' as int + d) as char else ('A' as int + d - 10) as char
  }

  /** "%0wX" of v: its w lowest upper-case hexadecimal digits, most significant first. */
  function FixedHex(v: nat, w: nat): (s: String)
    ensures |s| == w
  {
    if w == 0 then [] else FixedHex(v / 16, w - 1) + [UpperHexChar(v % 16)]
  }

  /** A value that fits in w digits is written in hexadecimal digits that read back as it. */
  lemma {:induction false} FixedHexValue(v: nat, w: nat)
    requires v < Pow16(w)
    ensures All(Hex, FixedHex(v, w)) && HexValue(FixedHex(v, w)) == v
  {
    if w > 0 {
      var s := FixedHex(v, w);
      assert s[..w - 1] == FixedHex(v / 16, w - 1);
      FixedHexValue(v / 16, w - 1);
      assert forall i :: 0 <= i < w - 1 ==> s[i] == FixedHex(v / 16, w - 1)[i];
    }
  }

  function DigitChar(d: nat): (c: char)
    requires d < 10
    ensures IsDigit(c) && c as nat - '0' as nat == d
  {
    ('0' as int + d) as char
  }

  /** "%d" of a non-negative number: its decimal digits, no leading zero. */
  function Decimal(n: nat): (s: String)
    ensures s != [] && IsDigit(s[0])
  {
    if n < 10 then [DigitChar(n)] else Decimal(n / 10) + [DigitChar(n % 10)]
  }

  /** "%d" is written in decimal digits that read back as the number, with no leading zero. */
  lemma {:induction false} DecimalValue(n: nat)
    ensures var s := Decimal(n);
      All(Digit, s) && DecValue(s) == n && (s[0] == '0' ==> n == 0)
  {
    if n >= 10 {
      var s := Decimal(n);
      DecimalValue(n / 10);
      assert s[..|s| - 1] == Decimal(n / 10);
      assert forall i :: 0 <= i < |s| - 1 ==> s[i] == Decimal(n / 10)[i];
    }
  }

  /** "%d" of any integer: a minus sign before the digits of a negative one. */
  function SignedDecimal(x: int): (s: String)
    ensures s != []
    ensures x < 0 <==> s[0] == '-'
    ensures x < 0 ==> s[1..] == Decimal(-x)
    ensures x >= 0 ==> s == Decimal(x)
  {
    if x < 0 then "-" + Decimal(-x) else Decimal(x)
  }
}
