/**
 * `hexToRGB` and the colour arithmetic of `setColor` in script/main.js.
 *
 * `hexToRGB(hex)` glues "0x" to the characters at indices 1-2, 3-4 and 5-6
 * and converts each string with unary `+`, that is JavaScript's
 * StringToNumber. An index past the end of the string reads `undefined`,
 * which concatenates as the text "undefined". `setColor` divides each
 * channel by 255 and appends an alpha of 1.
 */
module HexColor {
  import opened Wrappers
  import opened JsMath

  /** `hex[i]`: the character at i, or None where JavaScript reads `undefined`. */
  function CharAt(s: string, i: nat): Option<char> {
    if i < |s| then Some(s[i]) else None
  }

  predicate IsHexDigit(c: char) {
    '0' <= c <= '9' || 'a' <= c <= 'f' || 'A' <= c <= 'F'
  }

  /** The value of a hexadecimal digit, either case. */
  function DigitValue(c: char): (d: nat)
    requires IsHexDigit(c)
    ensures d < 16
  {
    if '0' <= c <= '9' then c as int - '0' as int
    else if 'a' <= c <= 'f' then c as int - 'a' as int + 10
    else c as int - 'A' as int + 10
  }

  /**
   * StrWhiteSpaceChar of ECMA-262 (section 7.1.4.1.1): the white space and
   * line terminators that StringToNumber trims from both ends.
   */
  predicate IsJsWhiteSpace(c: char) {
    var k := c as int;
    || k == 0x09 || k == 0x0B || k == 0x0C || k == 0x20 || k == 0xA0 || k == 0xFEFF
    || k == 0x1680 || 0x2000 <= k <= 0x200A || k == 0x202F || k == 0x205F || k == 0x3000
    || k == 0x0A || k == 0x0D || k == 0x2028 || k == 0x2029
  }

  /**
   * `+("0x" + a + b)`. Trailing white space is trimmed; what is left must be
   * "0x" followed by at least one hex digit. Anything else, including text
   * that contains "undefined", is NaN.
   */
  function HexPair(a: Option<char>, b: Option<char>): (r: JsNum)
    ensures r.Finite? <==>
      a.Some? && b.Some? && IsHexDigit(a.value) && (IsHexDigit(b.value) || IsJsWhiteSpace(b.value))
    ensures r.Finite? ==> 0.0 <= r.v <= 255.0
  {
    if a.Some? && b.Some? && IsHexDigit(a.value) && IsHexDigit(b.value) then
      Finite((16 * DigitValue(a.value) + DigitValue(b.value)) as real)
    else if a.Some? && b.Some? && IsHexDigit(a.value) && IsJsWhiteSpace(b.value) then
      Finite(DigitValue(a.value) as real)
    else
      NaN
  }

  /** The object `{r, g, b}` that hexToRGB returns. */
  datatype Rgb = Rgb(r: JsNum, g: JsNum, b: JsNum)

  function HexToRGB(hex: string): Rgb {
    Rgb(HexPair(CharAt(hex, 1), CharAt(hex, 2)),
        HexPair(CharAt(hex, 3), CharAt(hex, 4)),
        HexPair(CharAt(hex, 5), CharAt(hex, 6)))
  }

  /** Characters 1 to 6 are hex digits; character 0 (the '#') is never looked at. */
  predicate IsHexColor(hex: string) {
    |hex| >= 7 && forall i :: 1 <= i <= 6 ==> IsHexDigit(hex[i])
  }

  /** The number a two-digit hex pair denotes. */
  function PairValue(a: char, b: char): nat
    requires IsHexDigit(a) && IsHexDigit(b)
  {
    16 * DigitValue(a) + DigitValue(b)
  }

  /** On "#rrggbb" each channel is the value of its hex pair, so it lies in [0, 255]. */
  lemma HexToRGBOfHexColor(hex: string)
    requires IsHexColor(hex)
    ensures HexToRGB(hex) == Rgb(Finite(PairValue(hex[1], hex[2]) as real),
                                 Finite(PairValue(hex[3], hex[4]) as real),
                                 Finite(PairValue(hex[5], hex[6]) as real))
    ensures PairValue(hex[1], hex[2]) <= 255 && PairValue(hex[3], hex[4]) <= 255
      && PairValue(hex[5], hex[6]) <= 255
  {
  }

  /** Only characters 1 to 6 are read: two strings that agree there parse alike. */
  lemma HexToRGBReadsOneToSix(a: string, b: string)
    requires forall i :: 1 <= i <= 6 ==> CharAt(a, i) == CharAt(b, i)
    ensures HexToRGB(a) == HexToRGB(b)
  {
    assert CharAt(a, 1) == CharAt(b, 1) && CharAt(a, 2) == CharAt(b, 2);
    assert CharAt(a, 3) == CharAt(b, 3) && CharAt(a, 4) == CharAt(b, 4);
    assert CharAt(a, 5) == CharAt(b, 5) && CharAt(a, 6) == CharAt(b, 6);
  }

  /**
   * The error cases: a channel whose first character is missing or not a hex
   * digit is NaN, and so is one whose second character is missing or is
   * neither a hex digit nor white space (a string shorter than 7 characters
   * thus always has a NaN channel).
   */
  lemma HexToRGBNaN(hex: string, i: nat)
    requires i == 1 || i == 3 || i == 5
    requires i + 1 >= |hex| || !IsHexDigit(hex[i]) || !(IsHexDigit(hex[i + 1]) || IsJsWhiteSpace(hex[i + 1]))
    ensures (if i == 1 then HexToRGB(hex).r else if i == 3 then HexToRGB(hex).g else HexToRGB(hex).b) == NaN
  {
  }

  /** Lower-case hex digit for 0 <= d < 16, as a colour picker writes it. */
  function HexChar(d: nat): char
    requires d < 16
  {
    if d < 10 then ('0' as int + d) as char else ('a' as int + d - 10) as char
  }

  /** "#rrggbb" for three byte values: the strings a colour picker produces. */
  function FormatHex(r: nat, g: nat, b: nat): (hex: string)
    requires r < 256 && g < 256 && b < 256
    ensures |hex| == 7 && hex[0] == '#'
  {
    ['#', HexChar(r / 16), HexChar(r % 16), HexChar(g / 16), HexChar(g % 16), HexChar(b / 16), HexChar(b % 16)]
  }

  lemma DigitOfHexChar(d: nat)
    requires d < 16
    ensures IsHexDigit(HexChar(d)) && DigitValue(HexChar(d)) == d
  {
  }

  lemma HexCharOfDigit(c: char)
    requires IsHexDigit(c) && !('A' <= c <= 'F')
    ensures HexChar(DigitValue(c)) == c
  {
  }

  /** The lower-case form of a letter 'A' to 'F'; every other character is kept. */
  function Lower(c: char): char {
    if 'A' <= c <= 'F' then (c as int - 'A' as int + 'a' as int) as char else c
  }

  /**
   * `+"0x.."` is case-insensitive: an upper-case digit is worth what its
   * lower-case form is, and formats back as that lower-case form.
   */
  lemma DigitValueIgnoresCase(c: char)
    requires IsHexDigit(c)
    ensures IsHexDigit(Lower(c)) && !('A' <= Lower(c) <= 'F') && DigitValue(c) == DigitValue(Lower(c))
    ensures HexChar(DigitValue(c)) == Lower(c)
  {
    HexCharOfDigit(Lower(c));
  }

  lemma PairOfByte(v: nat)
    requires v < 256
    ensures PairValue(HexChar(v / 16), HexChar(v % 16)) == v
  {
    DigitOfHexChar(v / 16);
    DigitOfHexChar(v % 16);
  }

  /** Formatting three bytes and parsing them back gives the same three numbers. */
  lemma ParseFormatRoundTrip(r: nat, g: nat, b: nat)
    requires r < 256 && g < 256 && b < 256
    ensures IsHexColor(FormatHex(r, g, b))
    ensures HexToRGB(FormatHex(r, g, b)) == Rgb(Finite(r as real), Finite(g as real), Finite(b as real))
  {
    var hex := FormatHex(r, g, b);
    DigitOfHexChar(r / 16);
    DigitOfHexChar(r % 16);
    DigitOfHexChar(g / 16);
    DigitOfHexChar(g % 16);
    DigitOfHexChar(b / 16);
    DigitOfHexChar(b % 16);
    PairOfByte(r);
    PairOfByte(g);
    PairOfByte(b);
    HexToRGBOfHexColor(hex);
  }

  /** A lower-case "#rrggbb" is the formatting of the numbers it parses to. */
  lemma FormatParseRoundTrip(hex: string)
    requires IsHexColor(hex) && |hex| == 7 && hex[0] == '#'
    requires forall i :: 1 <= i <= 6 ==> !('A' <= hex[i] <= 'F')
    ensures PairValue(hex[1], hex[2]) < 256 && PairValue(hex[3], hex[4]) < 256 && PairValue(hex[5], hex[6]) < 256
    ensures FormatHex(PairValue(hex[1], hex[2]), PairValue(hex[3], hex[4]), PairValue(hex[5], hex[6])) == hex
  {
    forall i | 1 <= i <= 6 {
      HexCharOfDigit(hex[i]);
    }
    var r, g, b := PairValue(hex[1], hex[2]), PairValue(hex[3], hex[4]), PairValue(hex[5], hex[6]);
    assert r / 16 == DigitValue(hex[1]) && r % 16 == DigitValue(hex[2]);
    assert g / 16 == DigitValue(hex[3]) && g % 16 == DigitValue(hex[4]);
    assert b / 16 == DigitValue(hex[5]) && b % 16 == DigitValue(hex[6]);
  }

  /** A "#rrggbb" in any case is the formatting of the bytes it parses to, once put in lower case. */
  lemma FormatParseAnyCase(hex: string)
    requires IsHexColor(hex) && |hex| == 7 && hex[0] == '#'
    ensures PairValue(hex[1], hex[2]) < 256 && PairValue(hex[3], hex[4]) < 256 && PairValue(hex[5], hex[6]) < 256
    ensures FormatHex(PairValue(hex[1], hex[2]), PairValue(hex[3], hex[4]), PairValue(hex[5], hex[6]))
      == ['#', Lower(hex[1]), Lower(hex[2]), Lower(hex[3]), Lower(hex[4]), Lower(hex[5]), Lower(hex[6])]
  {
    forall i | 1 <= i <= 6 {
      DigitValueIgnoresCase(hex[i]);
    }
    var r, g, b := PairValue(hex[1], hex[2]), PairValue(hex[3], hex[4]), PairValue(hex[5], hex[6]);
    assert r / 16 == DigitValue(hex[1]) && r % 16 == DigitValue(hex[2]);
    assert g / 16 == DigitValue(hex[3]) && g % 16 == DigitValue(hex[4]);
    assert b / 16 == DigitValue(hex[5]) && b % 16 == DigitValue(hex[6]);
  }

  /** `color = [rgb.r / 255, rgb.g / 255, rgb.b / 255, 1]` in setColor. */
  function ColorOf(rgb: Rgb): seq<JsNum> {
    [Div(rgb.r, Finite(255.0)), Div(rgb.g, Finite(255.0)), Div(rgb.b, Finite(255.0)), Finite(1.0)]
  }

  /**
   * Whatever string setColor is given, the colour has four components, alpha
   * is 1, and each of the other three is NaN or lies in [0, 1].
   */
  lemma ColorOfAnyString(hex: string)
    ensures var c := ColorOf(HexToRGB(hex));
      && |c| == 4 && c[3] == Finite(1.0)
      && forall k :: 0 <= k < 3 ==> c[k] == NaN || (c[k].Finite? && 0.0 <= c[k].v <= 1.0)
  {
  }

  /** On "#rrggbb" every colour component is the channel's byte over 255, in [0, 1], and alpha is 1. */
  lemma ColorOfHexColor(hex: string)
    requires IsHexColor(hex)
    ensures var c := ColorOf(HexToRGB(hex));
      && c[0] == Finite(PairValue(hex[1], hex[2]) as real / 255.0)
      && c[1] == Finite(PairValue(hex[3], hex[4]) as real / 255.0)
      && c[2] == Finite(PairValue(hex[5], hex[6]) as real / 255.0)
      && forall k :: 0 <= k < 4 ==> c[k].Finite? && 0.0 <= c[k].v <= 1.0
  {
    HexToRGBOfHexColor(hex);
  }
}
