/**
 * The two java.lang.String queries the handlers rely on: `isBlank()` and
 * `length()`. Dafny characters are Unicode scalar values; Java strings are
 * sequences of UTF-16 code units.
 */
module JavaStrings {

  /**
   * `Character.isWhitespace` on a code point: the Unicode space, line and
   * paragraph separators except the non-breaking ones (U+00A0, U+2007,
   * U+202F), plus the ASCII controls U+0009..U+000D and U+001C..U+001F.
   */
  predicate IsWhitespace(c: char) {
    var n := c as int;
    || (0x09 <= n <= 0x0D)
    || (0x1C <= n <= 0x20)
    || n == 0x1680
    || (0x2000 <= n <= 0x2006)
    || (0x2008 <= n <= 0x200A)
    || n == 0x2028 || n == 0x2029
    || n == 0x205F || n == 0x3000
  }

  /** `String.isBlank()`: empty, or white space code points only. */
  predicate IsBlank(s: string) {
    forall i :: 0 <= i < |s| ==> IsWhitespace(s[i])
  }

  /** Number of UTF-16 code units a scalar value takes. */
  function Utf16Units(c: char): (n: nat)
    ensures n == 1 || n == 2
    ensures n == 2 <==> c as int >= 0x10000
  {
    if c as int >= 0x10000 then 2 else 1
  }

  /** `String.length()`: the number of UTF-16 code units. */
  function Utf16Length(s: string): (n: nat)
    ensures |s| <= n <= 2 * |s|
    ensures (forall i :: 0 <= i < |s| ==> s[i] as int < 0x10000) ==> n == |s|
  {
    if s == [] then 0 else Utf16Units(s[0]) + Utf16Length(s[1..])
  }
}
