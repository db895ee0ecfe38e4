/**
 * Character classes and numerals used by the colour-string patterns of
 * content.js: the `\d` and `\s` classes of ECMAScript regular expressions,
 * case-insensitive hexadecimal digits, and the decimal and hexadecimal
 * values that `Number` and `parseInt(_, 16)` give to a run of digits.
 */
module CssText {

  /** `\d`: only the ASCII digits, also under the `i` flag. */
  predicate IsDigit(c: char) {
    '0' <= c <= '9'
  }

  /**
   * `\s`: the ECMAScript WhiteSpace and LineTerminator code points
   * (tab, line feed, vertical tab, form feed, carriage return, space,
   * no-break space, the Unicode space separators, the line and paragraph
   * separators and the byte order mark).
   */
  predicate IsSpace(c: char) {
    c == '\t' || c == '\n' || c == '\U{000B}' || c == '\U{000C}' || c == '\r' ||
    c == ' ' || c == '\U{00A0}' || c == '\U{1680}' ||
    ('\U{2000}' <= c <= '\U{200A}') ||
    c == '\U{2028}' || c == '\U{2029}' || c == '\U{202F}' || c == '\U{205F}' ||
    c == '\U{3000}' || c == '\U{FEFF}'
  }

  /** `[0-9a-f]` under the `i` flag. */
  predicate IsHexDigit(c: char) {
    IsDigit(c) || ('a' <= c <= 'f') || ('A' <= c <= 'F')
  }

  predicate AllDigits(s: string) {
    forall i :: 0 <= i < |s| ==> IsDigit(s[i])
  }

  predicate AllSpaces(s: string) {
    forall i :: 0 <= i < |s| ==> IsSpace(s[i])
  }

  predicate AllHexDigits(s: string) {
    forall i :: 0 <= i < |s| ==> IsHexDigit(s[i])
  }

  function DigitValue(c: char): (v: nat)
    requires IsDigit(c)
    ensures v < 10
  {
    (c as int - '0' as int) as nat
  }

  function HexDigitValue(c: char): (v: nat)
    requires IsHexDigit(c)
    ensures v < 16
    ensures IsDigit(c) ==> v == DigitValue(c)
  {
    if IsDigit(c) then DigitValue(c)
    else if 'a' <= c <= 'f' then (c as int - 'a' as int + 10) as nat
    else (c as int - 'A' as int + 10) as nat
  }

  /** `c` with a letter `A`..`F` written in lower case; any other character unchanged. */
  function LowerHex(c: char): (d: char)
    ensures IsHexDigit(d) <==> IsHexDigit(c)
    ensures !('A' <= d <= 'F')
  {
    if 'A' <= c <= 'F' then (c as int - 'A' as int + 'a' as int) as char else c
  }

  /** `s` with every letter `A`..`F` written in lower case. */
  function LowerHexText(s: string): (t: string)
    ensures |t| == |s| && forall i :: 0 <= i < |s| ==> t[i] == LowerHex(s[i])
  {
    seq(|s|, i requires 0 <= i < |s| => LowerHex(s[i]))
  }

  /** Under the `i` flag a hexadecimal digit has the same value in either letter case. */
  lemma HexDigitIgnoresCase(c: char)
    requires IsHexDigit(c)
    ensures HexDigitValue(LowerHex(c)) == HexDigitValue(c)
  {
  }

  /** The value `Number` gives to a string of decimal digits (leading zeros allowed). */
  function DecimalValue(s: string): nat
    requires AllDigits(s)
  {
    if s == [] then 0 else 10 * DecimalValue(s[..|s| - 1]) + DigitValue(s[|s| - 1])
  }

  /** The value `parseInt(_, 16)` gives to a pair of hexadecimal digits. */
  function HexPairValue(hi: char, lo: char): (v: nat)
    requires IsHexDigit(hi) && IsHexDigit(lo)
    ensures v < 256
  {
    16 * HexDigitValue(hi) + HexDigitValue(lo)
  }

  /**
   * Length of the longest prefix of `s` made of digits: what the greedy
   * `\d+` / `\d*` consumes.
   */
  function DigitRun(s: string): (n: nat)
    ensures n <= |s|
    ensures AllDigits(s[..n])
    ensures n < |s| ==> !IsDigit(s[n])
  {
    if s == [] || !IsDigit(s[0]) then 0 else 1 + DigitRun(s[1..])
  }

  /** Length of the longest prefix of `s` made of `\s` characters: what `\s*` consumes. */
  function SpaceRun(s: string): (n: nat)
    ensures n <= |s|
    ensures AllSpaces(s[..n])
    ensures n < |s| ==> !IsSpace(s[n])
  {
    if s == [] || !IsSpace(s[0]) then 0 else 1 + SpaceRun(s[1..])
  }

  /** A digit run followed by text that does not begin with a digit is consumed whole. */
  lemma {:induction false} DigitRunOf(d: string, rest: string)
    requires AllDigits(d)
    requires rest == [] || !IsDigit(rest[0])
    ensures DigitRun(d + rest) == |d|
  {
    if d != [] {
      assert (d + rest)[1..] == d[1..] + rest;
      DigitRunOf(d[1..], rest);
    } else {
      assert d + rest == rest;
    }
  }

  /** A space run followed by text that does not begin with a space is consumed whole. */
  lemma {:induction false} SpaceRunOf(w: string, rest: string)
    requires AllSpaces(w)
    requires rest == [] || !IsSpace(rest[0])
    ensures SpaceRun(w + rest) == |w|
  {
    if w != [] {
      assert (w + rest)[1..] == w[1..] + rest;
      SpaceRunOf(w[1..], rest);
    } else {
      assert w + rest == rest;
    }
  }

  /** The decimal numeral of `n`, without leading zeros: how the browser prints a channel. */
  function DecimalText(n: nat): (s: string)
    ensures s != [] && AllDigits(s)
    ensures |s| > 1 ==> s[0] != '0'
  {
    if n < 10 then ['0' + n as char]
    else DecimalText(n / 10) + ['0' + (n % 10) as char]
  }

  /** `Number` reads back what the browser prints. */
  lemma {:induction false} DecimalTextValue(n: nat)
    ensures DecimalValue(DecimalText(n)) == n
  {
    var s := DecimalText(n);
    if n >= 10 {
      assert s[..|s| - 1] == DecimalText(n / 10);
      DecimalTextValue(n / 10);
    }
  }

  /** The lower-case hexadecimal digit of a value below 16. */
  function HexDigitText(v: nat): (c: char)
    requires v < 16
    ensures IsHexDigit(c) && HexDigitValue(c) == v
  {
    if v < 10 then '0' + v as char else 'a' + (v - 10) as char
  }

  /** Printing the value of a hexadecimal digit gives the digit back, in lower case. */
  lemma HexDigitTextOfValue(c: char)
    requires IsHexDigit(c)
    ensures HexDigitText(HexDigitValue(c)) == LowerHex(c)
  {
  }

  /** A pair read in base 16 splits back into the values of its two digits. */
  lemma HexPairDigits(hi: char, lo: char)
    requires IsHexDigit(hi) && IsHexDigit(lo)
    ensures HexPairValue(hi, lo) / 16 == HexDigitValue(hi)
    ensures HexPairValue(hi, lo) % 16 == HexDigitValue(lo)
  {
  }
}
