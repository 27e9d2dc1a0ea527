/**
 The part of `java.util.Formatter` that `String.format("%02x", b)` uses:
 lower-case hexadecimal digits, the minimal hexadecimal rendering of a
 non-negative number, and zero padding to a minimum width.
 */
module HexFormat {
  import opened JavaByte

  /** A character the `x` conversion may emit: `0-9` or `a-f` (never upper case). */
  predicate IsLowerHexDigit(c: char) {
    '0' <= c <= '9' || 'a' <= c <= 'f'
  }

  /** The numeric value of a lower-case hexadecimal digit. */
  function DigitValue(c: char): (v: int)
    requires IsLowerHexDigit(c)
    ensures 0 <= v < 16
  {
    if c <= '9' then c as int - '0' as int else c as int - 'a' as int + 10
  }

  /** The lower-case digit for a nibble `d`. */
  function HexDigit(d: int): (c: char)
    requires 0 <= d < 16
    ensures IsLowerHexDigit(c)
    ensures DigitValue(c) == d
  {
    if d < 10 then ('0' as int + d) as char else ('a' as int + d - 10) as char
  }

  /** `DigitValue` and `HexDigit` are inverse on the lower-case digits. */
  lemma DigitRoundTrip(c: char)
    requires IsLowerHexDigit(c)
    ensures HexDigit(DigitValue(c)) == c
  {
  }

  /** All characters of `s` are lower-case hexadecimal digits. */
  predicate AllLowerHex(s: string) {
    forall i :: 0 <= i < |s| ==> IsLowerHexDigit(s[i])
  }

  /** Concatenating two digit strings gives a digit string. */
  lemma AllLowerHexAppend(s: string, t: string)
    requires AllLowerHex(s) && AllLowerHex(t)
    ensures AllLowerHex(s + t)
  {
  }

  /** The number a string of hexadecimal digits denotes, most significant first. */
  function HexValue(s: string): (n: nat)
    requires AllLowerHex(s)
  {
    if |s| == 0 then 0 else HexValue(s[..|s| - 1]) * 16 + DigitValue(s[|s| - 1])
  }

  /** The unpadded rendering of `n` under the `x` conversion: base 16, lower
      case, no leading zeros, and "0" for zero. */
  function HexDigits(n: nat): (s: string)
    ensures 1 <= |s|
    ensures AllLowerHex(s)
    ensures HexValue(s) == n
    ensures s[0] == '0' ==> n == 0
    ensures |s| == 1 <==> n < 16
    decreases n
  {
    if n < 16 then [HexDigit(n)]
    else
      var s := HexDigits(n / 16) + [HexDigit(n % 16)];
      assert s[..|s| - 1] == HexDigits(n / 16);
      s
  }

  /** The formatter's width with the `0` flag: pads on the left with `pad`
      until the string is at least `width` long; a longer string is kept. */
  function PadLeft(s: string, width: nat, pad: char): (r: string)
    ensures |r| == if |s| < width then width else |s|
    ensures forall i :: 0 <= i < |s| ==> r[|r| - |s| + i] == s[i]
    ensures forall i :: 0 <= i < |r| - |s| ==> r[i] == pad
  {
    if |s| < width then seq(width - |s|, _ => pad) + s else s
  }

  /** `String.format("%02x", b)` for a Java `byte`: exactly two lower-case
      digits, the high nibble then the low nibble of the unsigned value. */
  function Format02x(b: JByte): (r: string)
    ensures |r| == 2
    ensures AllLowerHex(r)
    ensures r[0] == HexDigit(Unsigned(b) / 16)
    ensures r[1] == HexDigit(Unsigned(b) % 16)
  {
    var u := Unsigned(b);
    var digits := HexDigits(u);
    var r := PadLeft(digits, 2, '0');
    assert r[0] == HexDigit(u / 16) && r[1] == HexDigit(u % 16) by {
      if u < 16 {
        assert digits == [HexDigit(u)];
      } else {
        assert digits == HexDigits(u / 16) + [HexDigit(u % 16)];
        assert HexDigits(u / 16) == [HexDigit(u / 16)];
      }
    }
    r
  }
}
