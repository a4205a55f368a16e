/**
 The colour conversions of App.js: `hexToRgb`, `rgbToHex`, `hexToHsl` and
 `rgbToHsl`. Channels are integers; the HSL transform runs over exact reals
 instead of IEEE doubles, and `Math.round(x)` is `(x + 0.5).Floor`.
 */
module Converter {
  import opened Wrappers
  import opened Text

  predicate IsByte(v: int) {
    0 <= v <= 255
  }

  datatype Rgb = Rgb(r: int, g: int, b: int) {
    predicate Valid() {
      IsByte(r) && IsByte(g) && IsByte(b)
    }
  }

  /** The three outcomes of `hexToRgb`: the string 'Invalid Hex', `null`, or the components. */
  datatype HexParse = InvalidHex | NoMatch | Parsed(rgb: Rgb)

  /** The validity test of `hexToRgb`: a '#' and six hexadecimal digits in either case. */
  predicate IsHexColor(s: string) {
    |s| == 7 && s[0] == '#' && forall i :: 1 <= i < 7 ==> IsHexDigit(s[i])
  }

  /** The value of the digit pair at positions i and i + 1. */
  function PairValue(s: string, i: nat): (v: nat)
    requires i + 1 < |s| && IsHexDigit(s[i]) && IsHexDigit(s[i + 1])
    ensures IsByte(v)
  {
    16 * HexDigitValue(s[i]) + HexDigitValue(s[i + 1])
  }

  /** The second, looser pattern of `hexToRgb`: an optional '#' and then exactly
      three pairs of hexadecimal digits, captured pair by pair. */
  function ExecPairs(s: string): (m: Option<(string, string, string)>)
    ensures m.Some? ==> |m.value.0| == 2 && AllHexDigits(m.value.0)
    ensures m.Some? ==> |m.value.1| == 2 && AllHexDigits(m.value.1)
    ensures m.Some? ==> |m.value.2| == 2 && AllHexDigits(m.value.2)
  {
    var body := if |s| > 0 && s[0] == '#' then s[1..] else s;
    if |body| == 6 && AllHexDigits(body) then Some((body[0..2], body[2..4], body[4..6]))
    else None
  }

  /** `hexToRgb`: rejects anything but '#' and six hexadecimal digits; otherwise
      each digit pair is read as a base-16 byte. The `null` branch is dead. */
  function HexToRgb(hex: string): (res: HexParse)
    ensures res.InvalidHex? <==> !IsHexColor(hex)
    ensures !res.NoMatch?
    ensures res.Parsed? ==> res.rgb.Valid()
    ensures res.Parsed? ==>
      res.rgb == Rgb(PairValue(hex, 1), PairValue(hex, 3), PairValue(hex, 5))
  {
    if !IsHexColor(hex) then InvalidHex
    else
      assert AllHexDigits(hex[1..]);
      match ExecPairs(hex)
      case None => assert false; NoMatch
      case Some(pairs) =>
        ParseHexPair(pairs.0);
        ParseHexPair(pairs.1);
        ParseHexPair(pairs.2);
        Parsed(Rgb(ParseHex(pairs.0), ParseHex(pairs.1), ParseHex(pairs.2)))
  }

  /** The text "r, g, b" that `hexToRgb` and `handleRgbSubmit` store. */
  function RgbText(c: Rgb): string {
    IntText(c.r) + ", " + IntText(c.g) + ", " + IntText(c.b)
  }

  /** `rgbToHex`: packs the channels under a leading 1 digit (2^24), prints the
      sum in base 16, drops that leading digit, upper-cases the rest and puts a
      '#' in front. For bytes the shifts are exact multiplications. The result
      is '#' and the two upper-case digits of each channel. */
  function RgbToHex(r: int, g: int, b: int): (hex: string)
    requires IsByte(r) && IsByte(g) && IsByte(b)
    ensures hex == ['#', UpperHexDigit(r / 16), UpperHexDigit(r % 16),
                         UpperHexDigit(g / 16), UpperHexDigit(g % 16),
                         UpperHexDigit(b / 16), UpperHexDigit(b % 16)]
    ensures IsHexColor(hex)
    ensures forall i :: 1 <= i < |hex| ==> IsUpperHexDigit(hex[i])
  {
    RgbToHexShape(r, g, b);
    "#" + ToUpper(ToBase16(Pow16(6) + Packed(r, g, b))[1..])
  }

  /** The text `rgbToHex` builds is '#' and the upper-case digits of each channel. */
  lemma RgbToHexShape(r: int, g: int, b: int)
    requires IsByte(r) && IsByte(g) && IsByte(b)
    ensures "#" + ToUpper(ToBase16(Pow16(6) + Packed(r, g, b))[1..])
         == ['#', UpperHexDigit(r / 16), UpperHexDigit(r % 16),
                  UpperHexDigit(g / 16), UpperHexDigit(g % 16),
                  UpperHexDigit(b / 16), UpperHexDigit(b % 16)]
  {
    RgbToHexDigits(r, g, b);
    UpperOfLowerDigits(r, g, b);
  }

  /** `(r << 16) + (g << 8) + b`; for bytes the shifts do not wrap. */
  function Packed(r: int, g: int, b: int): (v: nat)
    requires IsByte(r) && IsByte(g) && IsByte(b)
    ensures v < 16777216
  {
    r * 65536 + g * 256 + b
  }

  lemma Pow16Six()
    ensures Pow16(6) == 16777216
  {
  }

  /** Upper-casing the six lower-case digits of three bytes. */
  lemma UpperOfLowerDigits(r: int, g: int, b: int)
    requires IsByte(r) && IsByte(g) && IsByte(b)
    ensures ToUpper([LowerHexDigit(r / 16), LowerHexDigit(r % 16),
                     LowerHexDigit(g / 16), LowerHexDigit(g % 16),
                     LowerHexDigit(b / 16), LowerHexDigit(b % 16)])
         == [UpperHexDigit(r / 16), UpperHexDigit(r % 16),
             UpperHexDigit(g / 16), UpperHexDigit(g % 16),
             UpperHexDigit(b / 16), UpperHexDigit(b % 16)]
  {
    UpperOfLowerDigit(r / 16);
    UpperOfLowerDigit(r % 16);
    UpperOfLowerDigit(g / 16);
    UpperOfLowerDigit(g % 16);
    UpperOfLowerDigit(b / 16);
    UpperOfLowerDigit(b % 16);
  }

  /** Splitting off the blue byte of the packed channels. */
  lemma PadHexBlue(r: int, g: int, b: int)
    requires IsByte(r) && IsByte(g) && IsByte(b)
    ensures PadHex(Packed(r, g, b), 6) == PadHex(256 * r + g, 4) + PadHex(b, 2)
  {
    PadHexSplit(Packed(r, g, b), 256 * r + g, b, 4);
  }

  /** The six padded digits of the packed channels are two per channel. */
  lemma PadHexChannels(r: int, g: int, b: int)
    requires IsByte(r) && IsByte(g) && IsByte(b)
    ensures PadHex(Packed(r, g, b), 6) == PadHex(r, 2) + PadHex(g, 2) + PadHex(b, 2)
  {
    PadHexBlue(r, g, b);
    PadHexSplit(256 * r + g, r, g, 2);
  }

  /** The digits `toString(16)` writes for the packed value, after its leading 1. */
  lemma RgbToHexDigits(r: int, g: int, b: int)
    requires IsByte(r) && IsByte(g) && IsByte(b)
    ensures ToBase16(Pow16(6) + Packed(r, g, b))[1..]
         == [LowerHexDigit(r / 16), LowerHexDigit(r % 16),
             LowerHexDigit(g / 16), LowerHexDigit(g % 16),
             LowerHexDigit(b / 16), LowerHexDigit(b % 16)]
  {
    Pow16Six();
    ToBase16LeadingOne(6, Packed(r, g, b));
    PadHexChannels(r, g, b);
    PadHexByte(r);
    PadHexByte(g);
    PadHexByte(b);
  }

  /** Encoding bytes and decoding the result gives the bytes back. */
  lemma RgbHexRoundTrip(r: int, g: int, b: int)
    requires IsByte(r) && IsByte(g) && IsByte(b)
    ensures HexToRgb(RgbToHex(r, g, b)) == Parsed(Rgb(r, g, b))
  {
    var hex := RgbToHex(r, g, b);
    assert PairValue(hex, 1) == r;
    assert PairValue(hex, 3) == g;
    assert PairValue(hex, 5) == b;
  }

  /** Re-encoding the byte a digit pair reads gives the pair back, upper-cased. */
  lemma PairRoundTrip(s: string, i: nat)
    requires i + 1 < |s| && IsHexDigit(s[i]) && IsHexDigit(s[i + 1])
    ensures UpperHexDigit(PairValue(s, i) / 16) == UpperChar(s[i])
    ensures UpperHexDigit(PairValue(s, i) % 16) == UpperChar(s[i + 1])
  {
    UpperKeepsDigitValue(s[i]);
    UpperKeepsDigitValue(s[i + 1]);
    var v := PairValue(s, i);
    assert v / 16 == HexDigitValue(s[i]) && v % 16 == HexDigitValue(s[i + 1]);
  }

  /** Decoding a valid hex colour and encoding the bytes gives the input back,
      upper-cased: the two conversions are inverse up to letter case. */
  lemma HexRgbRoundTrip(hex: string)
    requires IsHexColor(hex)
    ensures HexToRgb(hex).Parsed?
    ensures var c := HexToRgb(hex).rgb; RgbToHex(c.r, c.g, c.b) == ToUpper(hex)
  {
    var c := HexToRgb(hex).rgb;
    PairRoundTrip(hex, 1);
    PairRoundTrip(hex, 3);
    PairRoundTrip(hex, 5);
    var up := ToUpper(hex);
    assert up == [UpperChar(hex[0]), UpperChar(hex[1]), UpperChar(hex[2]), UpperChar(hex[3]),
                  UpperChar(hex[4]), UpperChar(hex[5]), UpperChar(hex[6])];
  }

  /** `#336699` reads as 51, 102, 153. */
  lemma HexToRgbExample()
    ensures HexToRgb("#336699") == Parsed(Rgb(51, 102, 153))
    ensures HexToRgb("#33669") == InvalidHex
    ensures HexToRgb("336699") == InvalidHex
  {
    assert PairValue("#336699", 1) == 51;
  }

  // ---------------------------------------------------------------------------
  // RGB -> HSL

  datatype Hsl = Hsl(h: int, s: int, l: int) {
    /** Hue in degrees, saturation and lightness in percent. */
    predicate InRange() {
      0 <= h <= 360 && 0 <= s <= 100 && 0 <= l <= 100
    }
  }

  /** `Math.round`: ties go up. */
  function Round(x: real): (n: int)
    ensures n as real - 0.5 <= x < n as real + 0.5
  {
    (x + 0.5).Floor
  }

  function Max3(a: real, b: real, c: real): (m: real)
    ensures m == a || m == b || m == c
    ensures a <= m && b <= m && c <= m
  {
    if a >= b && a >= c then a else if b >= c then b else c
  }

  function Min3(a: real, b: real, c: real): (m: real)
    ensures m == a || m == b || m == c
    ensures m <= a && m <= b && m <= c
  {
    if a <= b && a <= c then a else if b <= c then b else c
  }

  predicate Unit(x: real) {
    0.0 <= x <= 1.0
  }

  /** The three arms of the hue `switch`; each is the hue, in sixths of a turn,
      seen from the channel that holds the maximum. */
  function RedArm(r: real, g: real, b: real, d: real): real
    requires d > 0.0
  {
    (g - b) / d + (if g < b then 6.0 else 0.0)
  }

  function GreenArm(r: real, g: real, b: real, d: real): real
    requires d > 0.0
  {
    (b - r) / d + 2.0
  }

  function BlueArm(r: real, g: real, b: real, d: real): real
    requires d > 0.0
  {
    (r - g) / d + 4.0
  }

  /** `switch (max)`: the first of red, green, blue that equals the maximum. */
  function Sector(r: real, g: real, b: real): real
    requires Max3(r, g, b) != Min3(r, g, b)
  {
    var mx := Max3(r, g, b);
    var d := mx - Min3(r, g, b);
    if mx == r then RedArm(r, g, b, d)
    else if mx == g then GreenArm(r, g, b, d)
    else BlueArm(r, g, b, d)
  }

  /** A quotient of a value no larger in size than a positive divisor lies in [-1, 1]. */
  lemma QuotientBounds(x: real, d: real)
    requires d > 0.0 && -d <= x <= d
    ensures -1.0 <= x / d <= 1.0
    ensures x < 0.0 ==> x / d < 0.0
    ensures x >= 0.0 ==> x / d >= 0.0
  {
    assert (x / d) * d == x;
  }

  /** The hue as a fraction of a turn (`h /= 6`), always in [0, 1). */
  function HueTurns(r: real, g: real, b: real): (h: real)
    requires Unit(r) && Unit(g) && Unit(b)
    requires Max3(r, g, b) != Min3(r, g, b)
    ensures 0.0 <= h < 1.0
  {
    var mx := Max3(r, g, b);
    var d := mx - Min3(r, g, b);
    QuotientBounds(g - b, d);
    QuotientBounds(b - r, d);
    QuotientBounds(r - g, d);
    Sector(r, g, b) / 6.0
  }

  /** The saturation of a non-grey colour, in (0, 1]: the chroma over
      `2 - max - min` when the lightness is above one half, over `max + min` otherwise. */
  function Saturation(mx: real, mn: real): (s: real)
    requires 0.0 <= mn < mx <= 1.0
    ensures 0.0 < s <= 1.0
  {
    var d := mx - mn;
    var l := (mx + mn) / 2.0;
    if l > 0.5 then
      QuotientBounds(d, 2.0 - mx - mn);
      d / (2.0 - mx - mn)
    else
      QuotientBounds(d, mx + mn);
      d / (mx + mn)
  }

  /** The transform both `hexToHsl` and `rgbToHsl` carry: hue in degrees,
      saturation and lightness in percent, each rounded. */
  function HslOf(c: Rgb): (x: Hsl)
    requires c.Valid()
    ensures 0 <= x.h <= 360 && 0 <= x.s <= 100 && 0 <= x.l <= 100
    ensures c.r == c.g == c.b ==> x.h == 0 && x.s == 0
    ensures c.r == c.g == c.b ==> x.l == Round(c.r as real * 100.0 / 255.0)
  {
    var r := c.r as real / 255.0;
    var g := c.g as real / 255.0;
    var b := c.b as real / 255.0;
    var mx := Max3(r, g, b);
    var mn := Min3(r, g, b);
    var l := (mx + mn) / 2.0;
    if mx == mn then
      Hsl(0, 0, Round(l * 100.0))
    else
      var s := Saturation(mx, mn);
      Hsl(Round(HueTurns(r, g, b) * 360.0), Round(s * 100.0), Round(l * 100.0))
  }

  /** Whichever channel that ties for the maximum the `switch` had picked, the hue
      would be the same: the red > green > blue priority decides nothing. */
  lemma TieBreakImmaterial(r: real, g: real, b: real)
    requires Max3(r, g, b) != Min3(r, g, b)
    ensures var d := Max3(r, g, b) - Min3(r, g, b);
      && (r == Max3(r, g, b) ==> RedArm(r, g, b, d) == Sector(r, g, b))
      && (g == Max3(r, g, b) ==> GreenArm(r, g, b, d) == Sector(r, g, b))
      && (b == Max3(r, g, b) ==> BlueArm(r, g, b, d) == Sector(r, g, b))
  {
    var mx := Max3(r, g, b);
    var mn := Min3(r, g, b);
    var d := mx - mn;
    UnitRatios(d);
    if r == mx && g == mx {
      assert b == mn && g - b == d && b - r == -d;
    } else if r == mx && b == mx {
      assert g == mn && g - b == -d && r - g == d;
    } else if g == mx && b == mx {
      assert r == mn && b - r == d && r - g == -d;
    }
  }

  lemma UnitRatios(d: real)
    requires d > 0.0
    ensures d / d == 1.0 && (-d) / d == -1.0
  {
  }

  function HslText(x: Hsl): string {
    "hsl(" + IntText(x.h) + ", " + IntText(x.s) + "%, " + IntText(x.l) + "%)"
  }

  /** `rgbToHsl(r, g, b)`: the text `hsl(h, s%, l%)` of an in-range triple. */
  function RgbToHsl(r: int, g: int, b: int): (t: string)
    requires IsByte(r) && IsByte(g) && IsByte(b)
    ensures exists x: Hsl :: x.InRange() && t == HslText(x)
  {
    var x := HslOf(Rgb(r, g, b));
    assert x.InRange();
    HslText(x)
  }

  /** `hexToHsl(hex)`: the channels are read with `parseInt(hex.slice(i, i + 2), 16)`. */
  function HexToHsl(hex: string): (t: string)
    requires IsHexColor(hex)
    ensures exists x: Hsl :: x.InRange() && t == HslText(x)
  {
    var red := hex[1..3];
    var green := hex[3..5];
    var blue := hex[5..7];
    assert AllHexDigits(red) && AllHexDigits(green) && AllHexDigits(blue);
    var x := HslOf(Rgb(ParseHex(red), ParseHex(green), ParseHex(blue)));
    assert x.InRange();
    HslText(x)
  }

  /** The two copies of the transform agree: `hexToHsl(h)` is `rgbToHsl` of the
      bytes `hexToRgb(h)` reads. */
  lemma {:induction false} HexToHslAgrees(hex: string)
    requires IsHexColor(hex)
    ensures HexToRgb(hex).Parsed?
    ensures var c := HexToRgb(hex).rgb; HexToHsl(hex) == RgbToHsl(c.r, c.g, c.b)
  {
    var c := HexToRgb(hex).rgb;
    ParseHexPair(hex[1..3]);
    ParseHexPair(hex[3..5]);
    ParseHexPair(hex[5..7]);
    assert ParseHex(hex[1..3]) == c.r;
    assert ParseHex(hex[3..5]) == c.g;
    assert ParseHex(hex[5..7]) == c.b;
  }

  /** The hex that `rgbToHex` writes carries the same HSL as the bytes it came from. */
  lemma RgbToHexKeepsHsl(r: int, g: int, b: int)
    requires IsByte(r) && IsByte(g) && IsByte(b)
    ensures HexToHsl(RgbToHex(r, g, b)) == RgbToHsl(r, g, b)
  {
    RgbHexRoundTrip(r, g, b);
    HexToHslAgrees(RgbToHex(r, g, b));
  }

  /** Any grey is `hsl(0, 0%, l%)` with l its lightness in percent. */
  lemma GreyHsl(v: int)
    requires IsByte(v)
    ensures RgbToHsl(v, v, v) == "hsl(0, 0%, " + IntText(Round(v as real * 100.0 / 255.0)) + "%)"
  {
    var l := Round(v as real * 100.0 / 255.0);
    assert HslOf(Rgb(v, v, v)) == Hsl(0, 0, l);
    GreyText(l);
  }

  lemma GreyText(l: int)
    ensures HslText(Hsl(0, 0, l)) == "hsl(0, 0%, " + IntText(l) + "%)"
  {
    assert IntText(0) == "0";
  }

  /** Black is `hsl(0, 0%, 0%)` and white `hsl(0, 0%, 100%)`. */
  lemma BlackAndWhiteHsl()
    ensures RgbToHsl(0, 0, 0) == "hsl(0, 0%, 0%)"
    ensures RgbToHsl(255, 255, 255) == "hsl(0, 0%, 100%)"
  {
    var black := HslOf(Rgb(0, 0, 0));
    var white := HslOf(Rgb(255, 255, 255));
    assert black.l == Round(0.0) == 0;
    assert white.l == Round(100.0) == 100;
    assert HslText(Hsl(0, 0, 0)) == "hsl(0, 0%, 0%)";
    assert HslText(Hsl(0, 0, 100)) == "hsl(0, 0%, 100%)";
  }

  /** The bytes 51, 102, 153 have hue 210 degrees, saturation 50% and lightness 40%. */
  lemma HslOfExample()
    ensures HslOf(Rgb(51, 102, 153)) == Hsl(210, 50, 40)
  {
    var r := 51.0 / 255.0;
    var g := 102.0 / 255.0;
    var b := 153.0 / 255.0;
    assert r == 0.2 && g == 0.4 && b == 0.6;
    assert Max3(r, g, b) == 0.6 && Min3(r, g, b) == 0.2;
    assert Sector(r, g, b) == 3.5;
    assert HueTurns(r, g, b) * 360.0 == 210.0;
    assert Saturation(0.6, 0.2) == 0.5;
    assert Round(210.0) == 210 && Round(50.0) == 50 && Round(40.0) == 40;
  }

  /** The bytes 51, 102, 153 convert to `hsl(210, 50%, 40%)`. */
  lemma RgbToHslExample()
    ensures RgbToHsl(51, 102, 153) == "hsl(210, 50%, 40%)"
  {
    HslOfExample();
    assert HslText(Hsl(210, 50, 40)) == "hsl(210, 50%, 40%)";
  }

  /** `#336699` converts to `hsl(210, 50%, 40%)`. */
  lemma HexToHslExample()
    ensures HexToHsl("#336699") == "hsl(210, 50%, 40%)"
  {
    var hex := "#336699";
    HexToHslAgrees(hex);
    HexToRgbExample();
    assert HexToRgb(hex).rgb == Rgb(51, 102, 153);
    RgbToHslExample();
  }
}
