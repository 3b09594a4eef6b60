/** Colours, the "#rrggbb" keys of the palettes and the Euclidean colour
    distance (hexToRgb and euclideanDistance of the processing module). */
module Rgb {

  import Arith

  /** One channel of a Node Buffer (a Uint8Array element). */
  type Byte = x: int | 0 <= x < 256

  /** An RGB colour as the processing code builds it: { r, g, b }. */
  datatype Color = Color(r: Byte, g: Byte, b: Byte)

  datatype Option<T> = None | Some(value: T)

  predicate IsHexDigit(c: char) {
    '0' <= c <= '9' || 'a' <= c <= 'f' || 'A' <= c <= 'F'
  }

  /** The value parseInt(_, 16) gives one hex digit; upper and lower case agree. */
  function HexDigitValue(c: char): (v: nat)
    requires IsHexDigit(c)
    ensures v < 16
  {
    if '0' <= c <= '9' then c as int - '0' as int
    else if 'a' <= c <= 'f' then c as int - 'a' as int + 10
    else c as int - 'A' as int + 10
  }

  /** The digit for a value below 16, written in lower case. */
  function HexDigit(v: nat): (c: char)
    requires v < 16
    ensures IsHexDigit(c) && HexDigitValue(c) == v
  {
    if v < 10 then ('0' as int + v) as char else ('a' as int + v - 10) as char
  }

  /** The palette key format: '#' followed by six hex digits. */
  predicate WellFormedHex(s: string) {
    |s| == 7 && s[0] == '#' && forall i :: 1 <= i < 7 ==> IsHexDigit(s[i])
  }

  /** What hexToRgb needs to produce three numbers: slice(1,3), slice(3,5)
      and slice(5,7) are six hex digits.  The first character is never read
      and characters after the seventh are ignored by slice. */
  predicate ParsesAsRgb(s: string) {
    |s| >= 7 && forall i :: 1 <= i < 7 ==> IsHexDigit(s[i])
  }

  /** parseInt of a two-digit hex string. */
  function PairValue(hi: char, lo: char): Byte
    requires IsHexDigit(hi) && IsHexDigit(lo)
  {
    16 * HexDigitValue(hi) + HexDigitValue(lo)
  }

  /** hexToRgb: the three two-digit pairs after the first character. On a
      string that does not parse, JavaScript's lenient parseInt is not
      modelled and the result is None. */
  function HexToRgb(hex: string): (c: Option<Color>)
    ensures c.Some? <==> ParsesAsRgb(hex)
  {
    if ParsesAsRgb(hex) then
      Some(Color(PairValue(hex[1], hex[2]), PairValue(hex[3], hex[4]), PairValue(hex[5], hex[6])))
    else None
  }

  /** The inverse direction: a colour written as a lower-case palette key. */
  function RgbToHex(c: Color): (s: string)
    ensures WellFormedHex(s)
  {
    ['#', HexDigit(c.r / 16), HexDigit(c.r % 16), HexDigit(c.g / 16), HexDigit(c.g % 16),
     HexDigit(c.b / 16), HexDigit(c.b % 16)]
  }

  function LowerChar(c: char): char {
    if 'A' <= c <= 'Z' then (c as int + 32) as char else c
  }

  function Lower(s: string): string
  {
    seq(|s|, i requires 0 <= i < |s| => LowerChar(s[i]))
  }

  /** Decoding a key written by RgbToHex gives back the colour. */
  lemma HexRoundTrip(c: Color)
    ensures HexToRgb(RgbToHex(c)) == Some(c)
  {
    var s := RgbToHex(c);
    assert PairValue(s[1], s[2]) == c.r;
    assert PairValue(s[3], s[4]) == c.g;
    assert PairValue(s[5], s[6]) == c.b;
  }

  /** Every well-formed key is the lower-case form of its colour's key. */
  lemma HexRoundTripKey(s: string)
    requires WellFormedHex(s)
    ensures HexToRgb(s).Some? && RgbToHex(HexToRgb(s).value) == Lower(s)
  {
    var c := HexToRgb(s).value;
    PairDigits(s[1], s[2]);
    PairDigits(s[3], s[4]);
    PairDigits(s[5], s[6]);
    var t := RgbToHex(c);
    forall i | 1 <= i < 7 ensures t[i] == LowerChar(s[i]) {
      DigitCanonical(s[i]);
    }
    assert t == Lower(s);
  }

  lemma PairDigits(hi: char, lo: char)
    requires IsHexDigit(hi) && IsHexDigit(lo)
    ensures PairValue(hi, lo) / 16 == HexDigitValue(hi)
    ensures PairValue(hi, lo) % 16 == HexDigitValue(lo)
  {
    Arith.DivModUnique(PairValue(hi, lo), 16, HexDigitValue(hi), HexDigitValue(lo));
  }

  lemma DigitCanonical(c: char)
    requires IsHexDigit(c)
    ensures HexDigit(HexDigitValue(c)) == LowerChar(c)
  {
  }

  /** Lower- and upper-case digits give the same colour, and a string parses
      exactly when its lower-case form does. */
  lemma HexCaseInsensitive(s: string)
    ensures HexToRgb(Lower(s)) == HexToRgb(s)
  {
    var t := Lower(s);
    forall i | 0 <= i < |s| ensures IsHexDigit(t[i]) <==> IsHexDigit(s[i])
      ensures IsHexDigit(s[i]) ==> HexDigitValue(t[i]) == HexDigitValue(s[i])
    {
    }
    assert ParsesAsRgb(t) <==> ParsesAsRgb(s);
  }

  /** The integer under euclideanDistance's square root. */
  function SquaredDistance(a: Color, b: Color): (d: nat)
    ensures d == 0 <==> a == b
  {
    var dr, dg, db := a.r - b.r, a.g - b.g, a.b - b.b;
    dr * dr + dg * dg + db * db
  }

  /** SquaredDistance is symmetric, so euclideanDistance is too. */
  lemma SquaredDistanceSymmetric(a: Color, b: Color)
    ensures SquaredDistance(a, b) == SquaredDistance(b, a)
  {
    assert (a.r - b.r) * (a.r - b.r) == (b.r - a.r) * (b.r - a.r);
  }

  /** euclideanDistance up to the square root, taken as a real. Since the
      square root is strictly increasing on the non-negative reals, it ranks
      every pair of colours in the same order (see Matcher). */
  function SquaredEuclidean(a: Color, b: Color): (d: real)
    ensures d >= 0.0 && (d == 0.0 <==> a == b)
  {
    SquaredDistance(a, b) as real
  }
}
