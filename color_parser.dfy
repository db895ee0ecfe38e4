/**
 * `parseColor` of content.js: a CSS colour string becomes a red/green/blue
 * triple, or `null`. Three forms are tried in order:
 *   1. the functional form matched by /^rgba?\((\d+),\s*(\d+),\s*(\d+)/i,
 *   2. the hexadecimal form matched by /^#([0-9a-f]{3}|[0-9a-f]{6})$/i,
 *   3. anything else, after the browser has canonicalised it (the `canon`
 *      parameter stands for setting it as a `color` style and reading the
 *      computed value back), matched by the pattern of form 1 again.
 */
module ColorParser {
  import opened Options
  import opened CssText

  /** The three numbers `parseColor` returns; they are not range-checked. */
  datatype Rgb = Rgb(red: nat, green: nat, blue: nat)

  /**
   * How a string matched by the functional pattern is made up: the opening
   * `rgb(` or `rgba(` (any letter case), three digit runs separated by
   * commas, each comma followed by optional white space, and whatever the
   * pattern leaves unread (an alpha value, the closing parenthesis, ...).
   */
  datatype RgbText = RgbText(opening: string, red: string, space1: string, green: string,
                             space2: string, blue: string, rest: string)

  function Spelling(t: RgbText): string {
    t.opening + (FieldSpelling(t.red, t.space1) + (FieldSpelling(t.green, t.space2) + (t.blue + t.rest)))
  }

  /** A number, its comma and the white space after it. */
  function FieldSpelling(digits: string, spaces: string): string {
    digits + "," + spaces
  }

  /** `rgba?\(` under the `i` flag. */
  predicate IsRgbOpening(h: string) {
    (|h| == 4 || |h| == 5) &&
    (h[0] == 'r' || h[0] == 'R') && (h[1] == 'g' || h[1] == 'G') && (h[2] == 'b' || h[2] == 'B') &&
    (|h| == 5 ==> h[3] == 'a' || h[3] == 'A') &&
    h[|h| - 1] == '('
  }

  /**
   * The parts of a matched string as the pattern captures them: white space
   * only after the commas, every digit run non-empty, and the third run as
   * long as the greedy `\d+` makes it.
   */
  predicate WellFormed(t: RgbText) {
    IsRgbOpening(t.opening) &&
    t.red != [] && AllDigits(t.red) && AllSpaces(t.space1) &&
    t.green != [] && AllDigits(t.green) && AllSpaces(t.space2) &&
    t.blue != [] && AllDigits(t.blue) &&
    (t.rest == [] || !IsDigit(t.rest[0]))
  }

  /** The three captures, each read with `Number`. */
  function Channels(t: RgbText): Rgb
    requires WellFormed(t)
  {
    Rgb(DecimalValue(t.red), DecimalValue(t.green), DecimalValue(t.blue))
  }

  /** Length of the `rgb(` / `rgba(` opening at the start of `s`, or 0 when there is none. */
  function OpeningLength(s: string): (n: nat)
    ensures n == 0 || (n <= |s| && IsRgbOpening(s[..n]))
  {
    if |s| >= 4 && IsRgbOpening(s[..4]) then 4
    else if |s| >= 5 && IsRgbOpening(s[..5]) then 5
    else 0
  }

  /** A digit run read off the front of a string, and what follows it. */
  datatype Capture = Capture(digits: string, rest: string)

  /** A field's digit run, the white space after its comma, and what follows. */
  datatype Scanned = Scanned(digits: string, spaces: string, rest: string)

  /** `(\d+)`: the longest run of digits at the front of `s`, if there is one. */
  function DigitCapture(s: string): (r: Option<Capture>)
    ensures r.Some? ==> r.value.digits != [] && AllDigits(r.value.digits)
    ensures r.Some? ==> r.value.rest == [] || !IsDigit(r.value.rest[0])
    ensures r.Some? ==> s == r.value.digits + r.value.rest
  {
    var n := DigitRun(s);
    if n == 0 then None
    else
      SplitAt(s, n);
      Some(Capture(s[..n], s[n..]))
  }

  /** `(\d+),\s*`: a number, its comma and the white space after it. */
  function Field(s: string): (r: Option<Scanned>)
    ensures r.Some? ==> r.value.digits != [] && AllDigits(r.value.digits) && AllSpaces(r.value.spaces)
    ensures r.Some? ==> r.value.rest == [] || !IsSpace(r.value.rest[0])
    ensures r.Some? ==> s == FieldSpelling(r.value.digits, r.value.spaces) + r.value.rest
  {
    match DigitCapture(s)
    case None => None
    case Some(num) =>
      if num.rest == [] || num.rest[0] != ',' then None
      else
        var tail := num.rest[1..];
        var w := SpaceRun(tail);
        SplitAt(tail, w);
        Some(Scanned(num.digits, tail[..w], tail[w..]))
  }

  /** The match of the functional pattern against `s`, split into its parts. */
  function Split(s: string): Option<RgbText> {
    var k := OpeningLength(s);
    if k == 0 then None else
    var first := Field(s[k..]);
    if first.None? then None else
    var second := Field(first.value.rest);
    if second.None? then None else
    var third := DigitCapture(second.value.rest);
    if third.None? then None else
    Some(RgbText(s[..k], first.value.digits, first.value.spaces,
                 second.value.digits, second.value.spaces, third.value.digits, third.value.rest))
  }

  lemma SplitAt(s: string, n: nat)
    requires n <= |s|
    ensures s == s[..n] + s[n..]
  {
  }

  /** What `Split` finds is well formed and spells the string it was given. */
  lemma SplitSound(s: string)
    ensures Split(s).Some? ==> WellFormed(Split(s).value) && Spelling(Split(s).value) == s
  {
    if Split(s).Some? {
      var k := OpeningLength(s);
      SplitAt(s, k);
    }
  }

  /** `colorString.match(/^rgba?\((\d+),\s*(\d+),\s*(\d+)/i)` followed by `.slice(1).map(Number)`. */
  function MatchRgb(s: string): Option<Rgb> {
    SplitSound(s);
    match Split(s)
    case None => None
    case Some(t) => Some(Channels(t))
  }

  /** `#` and exactly three or six hexadecimal digits, anchored at both ends. */
  predicate IsHexForm(s: string) {
    (|s| == 4 || |s| == 7) && s[0] == '#' && AllHexDigits(s[1..])
  }

  /** The hexadecimal branch: each short digit is doubled, each long pair read in base 16. */
  function MatchHex(s: string): (r: Option<Rgb>)
    ensures r.Some? <==> IsHexForm(s)
    ensures r.Some? ==> r.value.red < 256 && r.value.green < 256 && r.value.blue < 256
  {
    if !IsHexForm(s) then None
    else if |s| == 4 then
      Some(Rgb(HexPairValue(s[1], s[1]), HexPairValue(s[2], s[2]), HexPairValue(s[3], s[3])))
    else
      Some(Rgb(HexPairValue(s[1], s[2]), HexPairValue(s[3], s[4]), HexPairValue(s[5], s[6])))
  }

  /**
   * `parseColor(colorString)`. `canon` is the browser's canonical spelling
   * of a colour value (the computed `color` of a scratch element styled with
   * `colorString`); its behaviour is left open.
   */
  function ParseColor(s: string, canon: string -> string): Option<Rgb> {
    var direct := MatchRgb(s);
    if direct.Some? then direct
    else
      var hex := MatchHex(s);
      if hex.Some? then hex
      else MatchRgb(canon(s))
  }

  // ---------------------------------------------------------------------
  // The functional pattern: the parser against its grammar
  // ---------------------------------------------------------------------

  /** A digit run followed by text that does not begin with a digit is read back whole. */
  lemma DigitCaptureOf(d: string, rest: string)
    requires d != [] && AllDigits(d)
    requires rest == [] || !IsDigit(rest[0])
    ensures DigitCapture(d + rest) == Some(Capture(d, rest))
  {
    DigitRunOf(d, rest);
    assert (d + rest)[..|d|] == d && (d + rest)[|d|..] == rest;
  }

  /** A field followed by text that does not begin with white space is read back whole. */
  lemma FieldOf(d: string, w: string, rest: string)
    requires d != [] && AllDigits(d) && AllSpaces(w)
    requires rest == [] || !IsSpace(rest[0])
    ensures Field(FieldSpelling(d, w) + rest) == Some(Scanned(d, w, rest))
  {
    var s := FieldSpelling(d, w) + rest;
    var tail := w + rest;
    assert s == d + ([','] + tail);
    DigitCaptureOf(d, [','] + tail);
    assert ([','] + tail)[1..] == tail;
    SpaceRunOf(w, rest);
    assert tail[..|w|] == w && tail[|w|..] == rest;
  }

  /** The opening is recognised with its own length, whatever follows it. */
  lemma OpeningOf(opening: string, rest: string)
    requires IsRgbOpening(opening)
    ensures OpeningLength(opening + rest) == |opening|
  {
    var s := opening + rest;
    assert s[..|opening|] == opening;
    if |opening| == 5 {
      assert s[3] != '(';
    }
  }

  /** Every string spelled from well-formed parts is split back into exactly those parts. */
  lemma SplitSpelling(t: RgbText)
    requires WellFormed(t)
    ensures Split(Spelling(t)) == Some(t)
  {
    var s := Spelling(t);
    var k := |t.opening|;
    var last := t.blue + t.rest;
    var more := FieldSpelling(t.green, t.space2) + last;
    var after := FieldSpelling(t.red, t.space1) + more;
    OpeningOf(t.opening, after);
    assert s[k..] == after;
    assert s[..k] == t.opening;
    FieldOf(t.red, t.space1, more);
    FieldOf(t.green, t.space2, last);
    DigitCaptureOf(t.blue, t.rest);
    SplitOfParts(s, k, t, more, last);
  }

  /** `Split` follows the opening, the two fields and the third number it finds. */
  lemma SplitOfParts(s: string, k: nat, t: RgbText, more: string, last: string)
    requires k > 0 && OpeningLength(s) == k && s[..k] == t.opening
    requires Field(s[k..]) == Some(Scanned(t.red, t.space1, more))
    requires Field(more) == Some(Scanned(t.green, t.space2, last))
    requires DigitCapture(last) == Some(Capture(t.blue, t.rest))
    ensures Split(s) == Some(t)
  {
  }

  /** `c` is what the functional pattern captures from some well-formed spelling `s`. */
  ghost predicate SpelledRgb(s: string, c: Rgb) {
    exists t :: WellFormed(t) && Spelling(t) == s && Channels(t) == c
  }

  /** The functional pattern matches exactly the well-formed spellings, capturing their numbers. */
  lemma MatchRgbExactly(s: string, c: Rgb)
    ensures MatchRgb(s) == Some(c) <==> SpelledRgb(s, c)
  {
    if MatchRgb(s) == Some(c) {
      MatchRgbSound(s);
    }
    if SpelledRgb(s, c) {
      var t :| WellFormed(t) && Spelling(t) == s && Channels(t) == c;
      MatchRgbComplete(t);
    }
  }

  /** What the functional pattern captures comes from a well-formed spelling of the whole input. */
  lemma MatchRgbSound(s: string)
    ensures MatchRgb(s).Some? ==> SpelledRgb(s, MatchRgb(s).value)
  {
    SplitSound(s);
    if MatchRgb(s).Some? {
      var t := Split(s).value;
      assert WellFormed(t) && Spelling(t) == s && Channels(t) == MatchRgb(s).value;
    }
  }

  /** The functional pattern captures the numbers of every well-formed spelling. */
  lemma MatchRgbComplete(t: RgbText)
    requires WellFormed(t)
    ensures MatchRgb(Spelling(t)) == Some(Channels(t))
  {
    SplitSpelling(t);
  }

  /** A string of the functional form parses to its three numbers, whatever the host does. */
  lemma ParseSpelledRgb(t: RgbText, canon: string -> string)
    requires WellFormed(t)
    ensures ParseColor(Spelling(t), canon) == Some(Channels(t))
  {
    SplitSpelling(t);
  }

  /** How the browser serialises an opaque colour: `rgb(r, g, b)`. */
  function RgbFunctionText(c: Rgb): string {
    "rgb(" + DecimalText(c.red) + ", " + DecimalText(c.green) + ", " + DecimalText(c.blue) + ")"
  }

  /** How the browser serialises a colour with an alpha value: `rgba(r, g, b, alpha)`. */
  function RgbaFunctionText(c: Rgb, alpha: string): string {
    "rgba(" + DecimalText(c.red) + ", " + DecimalText(c.green) + ", " + DecimalText(c.blue) + ", " + alpha + ")"
  }

  /** Reading back the browser's `rgb(r, g, b)` gives the same numbers. */
  lemma ParseRgbFunctionText(c: Rgb, canon: string -> string)
    ensures ParseColor(RgbFunctionText(c), canon) == Some(c)
  {
    var t := RgbText("rgb(", DecimalText(c.red), " ", DecimalText(c.green), " ", DecimalText(c.blue), ")");
    assert Spelling(t) == RgbFunctionText(c);
    DecimalTextValue(c.red);
    DecimalTextValue(c.green);
    DecimalTextValue(c.blue);
    ParseSpelledRgb(t, canon);
  }

  /** The alpha value of `rgba(r, g, b, alpha)` is dropped, whatever it is (zero included). */
  lemma ParseRgbaDropsAlpha(c: Rgb, alpha: string, canon: string -> string)
    ensures ParseColor(RgbaFunctionText(c, alpha), canon) == Some(c)
  {
    var t := RgbText("rgba(", DecimalText(c.red), " ", DecimalText(c.green), " ", DecimalText(c.blue),
                     ", " + alpha + ")");
    assert Spelling(t) == RgbaFunctionText(c, alpha);
    DecimalTextValue(c.red);
    DecimalTextValue(c.green);
    DecimalTextValue(c.blue);
    ParseSpelledRgb(t, canon);
  }

  // ---------------------------------------------------------------------
  // The hexadecimal form
  // ---------------------------------------------------------------------

  /** A hexadecimal string never reaches the host and gives channels in [0, 255]. */
  lemma ParseHexForm(s: string, canon: string -> string)
    requires IsHexForm(s)
    ensures ParseColor(s, canon) == MatchHex(s)
    ensures ParseColor(s, canon).Some?
    ensures var c := ParseColor(s, canon).value; c.red < 256 && c.green < 256 && c.blue < 256
  {
    assert OpeningLength(s) == 0;
  }

  /** The six-digit spelling with every digit of `h` written twice. */
  function Doubled(h: string): (d: string)
    requires |h| == 3
    ensures |d| == 6 && forall i :: 0 <= i < 6 ==> d[i] == h[i / 2]
  {
    [h[0], h[0], h[1], h[1], h[2], h[2]]
  }

  /** `#rgb` means the same colour as `#rrggbb`. */
  lemma ShortHexIsDoubled(h: string, canon: string -> string)
    requires |h| == 3 && AllHexDigits(h)
    ensures ParseColor("#" + h, canon) == ParseColor("#" + Doubled(h), canon)
  {
    var short, long := "#" + h, "#" + Doubled(h);
    assert short[1..] == h;
    assert long[1..] == Doubled(h);
    ParseHexForm(short, canon);
    ParseHexForm(long, canon);
  }

  /** `#rrggbb` in lower case: the hexadecimal spelling of a colour whose channels fit a byte. */
  function HexText(c: Rgb): (s: string)
    requires c.red < 256 && c.green < 256 && c.blue < 256
  {
    ['#', HexDigitText(c.red / 16), HexDigitText(c.red % 16),
          HexDigitText(c.green / 16), HexDigitText(c.green % 16),
          HexDigitText(c.blue / 16), HexDigitText(c.blue % 16)]
  }

  /** Reading back a hexadecimal spelling gives the same colour. */
  lemma ParseHexText(c: Rgb, canon: string -> string)
    requires c.red < 256 && c.green < 256 && c.blue < 256
    ensures ParseColor(HexText(c), canon) == Some(c)
  {
    var s := HexText(c);
    assert IsHexForm(s);
    ParseHexForm(s, canon);
  }

  /** The hexadecimal branch ignores letter case: `#ABCDEF` gives what `#abcdef` gives. */
  lemma ParseHexIgnoresCase(s: string, canon: string -> string)
    requires IsHexForm(s)
    ensures IsHexForm(LowerHexText(s))
    ensures ParseColor(s, canon) == ParseColor(LowerHexText(s), canon)
  {
    var l := LowerHexText(s);
    assert forall i :: 1 <= i < |l| ==> l[i] == LowerHex(s[i]) && IsHexDigit(s[i]);
    assert IsHexForm(l);
    ParseHexForm(s, canon);
    ParseHexForm(l, canon);
    HexDigitIgnoresCase(s[1]);
    HexDigitIgnoresCase(s[2]);
    HexDigitIgnoresCase(s[3]);
    if |s| == 7 {
      HexDigitIgnoresCase(s[4]);
      HexDigitIgnoresCase(s[5]);
      HexDigitIgnoresCase(s[6]);
    }
  }

  /** Printing a parsed `#rrggbb` string gives the string back, in lower case. */
  lemma HexTextOfParse(s: string, canon: string -> string)
    requires |s| == 7 && IsHexForm(s)
    ensures ParseColor(s, canon).Some?
    ensures var c := ParseColor(s, canon).value;
      c.red < 256 && c.green < 256 && c.blue < 256 && HexText(c) == LowerHexText(s)
  {
    ParseHexForm(s, canon);
    assert forall i :: 1 <= i < 7 ==> IsHexDigit(s[i]);
    HexPairDigits(s[1], s[2]);
    HexPairDigits(s[3], s[4]);
    HexPairDigits(s[5], s[6]);
    HexDigitTextOfValue(s[1]);
    HexDigitTextOfValue(s[2]);
    HexDigitTextOfValue(s[3]);
    HexDigitTextOfValue(s[4]);
    HexDigitTextOfValue(s[5]);
    HexDigitTextOfValue(s[6]);
  }

  /** `#fff` and `#ffffff` are both white. */
  lemma WhiteInHex(canon: string -> string)
    ensures ParseColor("#fff", canon) == Some(Rgb(255, 255, 255))
    ensures ParseColor("#ffffff", canon) == Some(Rgb(255, 255, 255))
  {
    assert "#fff"[1..] == "fff";
    assert "#ffffff"[1..] == "ffffff";
    ParseHexForm("#fff", canon);
    ParseHexForm("#ffffff", canon);
  }

  // ---------------------------------------------------------------------
  // The host fallback
  // ---------------------------------------------------------------------

  /**
   * A string of neither form is accepted exactly when the host's canonical
   * spelling of it has the functional form, and then gives that spelling's numbers.
   */
  lemma ParseThroughHost(s: string, canon: string -> string, c: Rgb)
    requires MatchRgb(s).None? && !IsHexForm(s)
    ensures ParseColor(s, canon) == Some(c) <==> SpelledRgb(canon(s), c)
  {
    MatchRgbExactly(canon(s), c);
  }

  /** The host is consulted only for strings of neither form: for the others any two hosts agree. */
  lemma HostOnlyForOtherForms(s: string, canon1: string -> string, canon2: string -> string)
    ensures MatchRgb(s).Some? || IsHexForm(s) ==> ParseColor(s, canon1) == ParseColor(s, canon2)
  {
  }

  /** The six-digit spelling of a hexadecimal string: `#rgb` written as `#rrggbb`. */
  function LongHex(s: string): (l: string)
    requires IsHexForm(s)
    ensures |l| == 7 && IsHexForm(l)
  {
    if |s| == 7 then s
    else
      var d := Doubled(s[1..]);
      assert forall i :: 0 <= i < 6 ==> IsHexDigit(d[i]) by {
        forall i | 0 <= i < 6 ensures IsHexDigit(d[i]) {
          assert d[i] == s[1..][i / 2];
        }
      }
      assert ("#" + d)[1..] == d;
      "#" + d
  }

  /** A hexadecimal string gives the colour whose `#rrggbb` spelling is its own, in lower case. */
  lemma HexOrigin(s: string, canon: string -> string)
    requires IsHexForm(s)
    ensures ParseColor(s, canon).Some?
    ensures var c := ParseColor(s, canon).value;
      c.red < 256 && c.green < 256 && c.blue < 256 && HexText(c) == LowerHexText(LongHex(s))
  {
    if |s| == 4 {
      assert "#" + s[1..] == s;
      ShortHexIsDoubled(s[1..], canon);
    }
    HexTextOfParse(LongHex(s), canon);
  }

  /**
   * Whatever `parseColor` returns comes from one of its three branches:
   * a functional spelling of `s`, the hexadecimal digits of `s`, or a
   * functional spelling of the host's canonical form of `s`.
   */
  lemma ParseColorOrigin(s: string, canon: string -> string)
    requires ParseColor(s, canon).Some?
    ensures var c := ParseColor(s, canon).value;
      SpelledRgb(s, c) ||
      (IsHexForm(s) && c.red < 256 && c.green < 256 && c.blue < 256 &&
       HexText(c) == LowerHexText(LongHex(s))) ||
      SpelledRgb(canon(s), c)
  {
    var c := ParseColor(s, canon).value;
    MatchRgbExactly(s, c);
    if MatchRgb(s).None? && IsHexForm(s) {
      HexOrigin(s, canon);
    } else {
      MatchRgbExactly(canon(s), c);
    }
  }
}
