/** Colours as the painter handles them: `#rrggbb` strings parsed by
    `color_rgba`, produced from the hue/saturation/value state of the
    colour picker by `colorsys.hsv_to_rgb` and `:02x` formatting. */
module Colour {
  import opened Wrappers
  import opened Geometry

  /** An RGBA quadruple as `color_rgba` returns it. */
  datatype Rgba = Rgba(r: int, g: int, b: int, a: int)

  /** `s.lstrip("#")`: every leading '#' removed. */
  function LStripHash(s: string): (r: string)
    ensures |r| <= |s| && r == s[|s| - |r|..]
    ensures forall i :: 0 <= i < |s| - |r| ==> s[i] == '#'
    ensures r == [] || r[0] != '#'
  {
    if |s| > 0 && s[0] == '#' then LStripHash(s[1..]) else s
  }

  /** Python's slice `s[i:j]` for 0 <= i <= j: bounds past the end are cut
      back to the end. */
  function Slice(s: string, i: nat, j: nat): (r: string)
    requires i <= j
    ensures |r| <= j - i
    ensures j <= |s| ==> r == s[i..j]
  {
    var lo := if i < |s| then i else |s|;
    var hi := if j < |s| then j else |s|;
    s[lo..hi]
  }

  /** The value of one hexadecimal digit, either case. */
  function HexValue(c: char): (r: Option<int>)
    ensures r.Some? ==> 0 <= r.value < 16
  {
    if '0' <= c <= '9' then Some(c as int - '0' as int)
    else if 'a' <= c <= 'f' then Some(c as int - 'a' as int + 10)
    else if 'A' <= c <= 'F' then Some(c as int - 'A' as int + 10)
    else None
  }

  /** The ASCII characters Python's `int()` skips around a number: on an
      all-ASCII string only space, tab, newline, carriage return, vertical
      tab and form feed. */
  predicate IsSpace(c: char) {
    c == ' ' || c == '\t' || c == '\n' || c == '\r' || c == '\U{0b}' || c == '\U{0c}'
  }

  function StripLeadingSpaces(s: string): (r: string)
    ensures |r| <= |s|
    ensures r == [] || !IsSpace(r[0])
    ensures (forall i :: 0 <= i < |s| ==> !IsSpace(s[i])) ==> r == s
  {
    if |s| > 0 && IsSpace(s[0]) then StripLeadingSpaces(s[1..]) else s
  }

  function StripTrailingSpaces(s: string): (r: string)
    ensures |r| <= |s|
    ensures r == [] || !IsSpace(r[|r| - 1])
    ensures (forall i :: 0 <= i < |s| ==> !IsSpace(s[i])) ==> r == s
  {
    if |s| > 0 && IsSpace(s[|s| - 1]) then StripTrailingSpaces(s[..|s| - 1]) else s
  }

  /** `int(t, 16)` on a field of at most two ASCII characters, None where
      Python raises ValueError. Such a short field is one or two hex digits,
      possibly with surrounding blanks, or a sign and one digit. Non-ASCII
      whitespace and digits, which Python also accepts, are not modelled. */
  function ParseBase16(t: string): (r: Option<int>)
    requires |t| <= 2
    ensures r.Some? ==> -15 <= r.value <= 255
    ensures t == [] ==> r == None
  {
    var u := StripTrailingSpaces(StripLeadingSpaces(t));
    if |u| == 0 then None
    else if u[0] == '+' || u[0] == '-' then
      if |u| == 2 && HexValue(u[1]).Some? then
        Some(if u[0] == '-' then -HexValue(u[1]).value else HexValue(u[1]).value)
      else None
    else if |u| == 1 then HexValue(u[0])
    else if HexValue(u[0]).Some? && HexValue(u[1]).Some? then
      Some(16 * HexValue(u[0]).value + HexValue(u[1]).value)
    else None
  }

  /** `color_rgba(hex_color, alpha)`: strip the leading '#'s and read the
      three two-character fields as base-16 numbers; None where the source
      raises ValueError. */
  function ColorRgba(hex: string, alpha: int): (r: Option<Rgba>)
    ensures r.Some? ==> r.value.a == alpha
    ensures r.Some? ==> -15 <= r.value.r <= 255 && -15 <= r.value.g <= 255 && -15 <= r.value.b <= 255
    ensures |LStripHash(hex)| < 5 ==> r == None
  {
    var h := LStripHash(hex);
    var red := ParseBase16(Slice(h, 0, 2));
    var green := ParseBase16(Slice(h, 2, 4));
    var blue := ParseBase16(Slice(h, 4, 6));
    if red.Some? && green.Some? && blue.Some? then Some(Rgba(red.value, green.value, blue.value, alpha))
    else None
  }

  const HexDigits: string := "0123456789abcdef"

  /** A hexadecimal digit as Python's `x` format writes it: lower case. */
  predicate IsLowerHex(c: char) {
    '0' <= c <= '9' || 'a' <= c <= 'f'
  }

  /** `f"{n:02x}"` for a byte. */
  function Hex2(n: int): (r: string)
    requires 0 <= n < 256
    ensures |r| == 2
    ensures HexValue(r[0]) == Some(n / 16) && HexValue(r[1]) == Some(n % 16)
    ensures IsLowerHex(r[0]) && IsLowerHex(r[1])
  {
    HexDigitRoundTrip(n / 16);
    HexDigitRoundTrip(n % 16);
    [HexDigits[n / 16], HexDigits[n % 16]]
  }

  /** `f"#{r:02x}{g:02x}{b:02x}"`, as the colour picker formats colours. */
  function FormatHex(r: int, g: int, b: int): (s: string)
    requires 0 <= r < 256 && 0 <= g < 256 && 0 <= b < 256
    ensures |s| == 7 && s[0] == '#'
    ensures s[1..3] == Hex2(r) && s[3..5] == Hex2(g) && s[5..7] == Hex2(b)
  {
    "#" + Hex2(r) + Hex2(g) + Hex2(b)
  }

  lemma HexDigitRoundTrip(d: int)
    requires 0 <= d < 16
    ensures HexValue(HexDigits[d]) == Some(d) && !IsSpace(HexDigits[d]) && IsLowerHex(HexDigits[d])
    ensures HexDigits[d] != '+' && HexDigits[d] != '-' && HexDigits[d] != '#'
  {
  }

  /** Reading back a formatted byte gives the byte. */
  lemma {:induction false} Hex2RoundTrip(n: int)
    requires 0 <= n < 256
    ensures ParseBase16(Hex2(n)) == Some(n)
  {
    var t := Hex2(n);
    HexDigitRoundTrip(n / 16);
    HexDigitRoundTrip(n % 16);
    assert StripLeadingSpaces(t) == t;
    assert StripTrailingSpaces(t) == t;
  }

  /** `color_rgba` reads back exactly the channels a colour was formatted
      from: the picker's colour strings always parse. */
  lemma {:induction false} ColorRgbaFormatHex(r: int, g: int, b: int, alpha: int)
    requires 0 <= r < 256 && 0 <= g < 256 && 0 <= b < 256
    ensures ColorRgba(FormatHex(r, g, b), alpha) == Some(Rgba(r, g, b, alpha))
  {
    var s := FormatHex(r, g, b);
    FormatHexCanonical(r, g, b);
    CanonicalHexParses(s, alpha);
    HexPairOfHex2(s, 1, r);
    HexPairOfHex2(s, 3, g);
    HexPairOfHex2(s, 5, b);
  }

  /** The digit pair `Hex2` writes reads back as its byte. */
  lemma HexPairOfHex2(s: string, i: nat, n: int)
    requires 0 <= n < 256 && i + 1 < |s| && s[i..i + 2] == Hex2(n)
    ensures HexValue(s[i]).Some? && HexValue(s[i + 1]).Some? && HexPair(s, i) == n
  {
    assert s[i] == HexDigits[n / 16] && s[i + 1] == HexDigits[n % 16];
    HexDigitRoundTrip(n / 16);
    HexDigitRoundTrip(n % 16);
  }

  /** A colour string in the form the painter itself writes: '#' and six
      hexadecimal digits. */
  predicate CanonicalHex(s: string) {
    |s| == 7 && s[0] == '#' && forall i :: 1 <= i < 7 ==> HexValue(s[i]).Some?
  }

  /** The colours the painter stores: brush and pending picker colour. */
  type HexColour = s: string | CanonicalHex(s) witness "#000000"

  /** Two hexadecimal digits read as a base-16 number. */
  lemma ParseTwoDigits(t: string)
    requires |t| == 2 && HexValue(t[0]).Some? && HexValue(t[1]).Some?
    ensures ParseBase16(t) == Some(16 * HexValue(t[0]).value + HexValue(t[1]).value)
  {
    assert !IsSpace(t[0]) && !IsSpace(t[1]);
    assert StripLeadingSpaces(t) == t;
    assert StripTrailingSpaces(t) == t;
  }

  /** The byte written by the two hex digits at i and i + 1. */
  function HexPair(s: string, i: nat): (b: int)
    requires i + 1 < |s| && HexValue(s[i]).Some? && HexValue(s[i + 1]).Some?
    ensures 0 <= b < 256
  {
    16 * HexValue(s[i]).value + HexValue(s[i + 1]).value
  }

  /** `color_rgba` reads every canonical colour string as the three bytes
      its digit pairs write. */
  lemma CanonicalHexParses(s: string, alpha: int)
    requires CanonicalHex(s)
    ensures ColorRgba(s, alpha) == Some(Rgba(HexPair(s, 1), HexPair(s, 3), HexPair(s, 5), alpha))
  {
    assert LStripHash(s) == s[1..] by {
      assert HexValue(s[1]).Some?;
      assert LStripHash(s) == LStripHash(s[1..]);
    }
    PairParses(s, 0);
    PairParses(s, 1);
    PairParses(s, 2);
  }

  /** The k-th two-character field after the `#` of a canonical colour
      parses to the byte its two digits write. */
  lemma PairParses(s: string, k: nat)
    requires CanonicalHex(s) && k < 3
    ensures ParseBase16(Slice(s[1..], 2 * k, 2 * k + 2)) == Some(HexPair(s, 2 * k + 1))
  {
    var t := s[2 * k + 1..2 * k + 3];
    assert Slice(s[1..], 2 * k, 2 * k + 2) == t;
    ParseTwoDigits(t);
  }

  /** Every colour the picker formats is canonical. */
  lemma FormatHexCanonical(r: int, g: int, b: int)
    requires 0 <= r < 256 && 0 <= g < 256 && 0 <= b < 256
    ensures CanonicalHex(FormatHex(r, g, b))
  {
    HexDigitRoundTrip(r / 16);
    HexDigitRoundTrip(r % 16);
    HexDigitRoundTrip(g / 16);
    HexDigitRoundTrip(g % 16);
    HexDigitRoundTrip(b / 16);
    HexDigitRoundTrip(b % 16);
  }

  /** The brush colour the painter starts with. */
  const InitialBrushColor: HexColour := "#222222"

  lemma InitialBrushColorWellFormed()
    ensures ColorRgba(InitialBrushColor, 255) == Some(Rgba(34, 34, 34, 255))
    ensures CanonicalHex(InitialBrushColor)
  {
    assert FormatHex(34, 34, 34) == InitialBrushColor;
    ColorRgbaFormatHex(34, 34, 34, 255);
    FormatHexCanonical(34, 34, 34);
  }

  /** A colour as three real components, each in [0, 1]. */
  datatype Rgb = Rgb(r: real, g: real, b: real)

  predicate Unit(x: real) {
    0.0 <= x <= 1.0
  }

  lemma UnitProduct(a: real, b: real)
    requires Unit(a) && Unit(b)
    ensures Unit(a * b)
  {
    MulLe(a, 1.0, b);
    MulLe(0.0, a, b);
    assert a * b <= b;
    assert 0.0 <= a * b;
  }

  /** `colorsys.hsv_to_rgb(h, s, v)`, in exact real arithmetic. */
  function HsvToRgb(h: real, s: real, v: real): (c: Rgb)
    ensures Unit(h) && Unit(s) && Unit(v) ==> Unit(c.r) && Unit(c.g) && Unit(c.b)
    ensures s == 0.0 ==> c == Rgb(v, v, v)
  {
    if s == 0.0 then Rgb(v, v, v)
    else
      var i := Trunc(h * 6.0);
      var f := h * 6.0 - i as real;
      var p := v * (1.0 - s);
      var q := v * (1.0 - s * f);
      var t := v * (1.0 - s * (1.0 - f));
      assert Unit(h) && Unit(s) && Unit(v) ==> Unit(p) && Unit(q) && Unit(t) by {
        if Unit(h) && Unit(s) && Unit(v) {
          assert Unit(f);
          UnitProduct(s, f);
          UnitProduct(s, 1.0 - f);
          UnitProduct(v, 1.0 - s);
          UnitProduct(v, 1.0 - s * f);
          UnitProduct(v, 1.0 - s * (1.0 - f));
        }
      }
      match i % 6
      case 0 => Rgb(v, t, p)
      case 1 => Rgb(q, v, p)
      case 2 => Rgb(p, v, t)
      case 3 => Rgb(p, q, v)
      case 4 => Rgb(t, p, v)
      case _ => Rgb(v, p, q)
  }

  function RMax(a: real, b: real): real { if a >= b then a else b }
  function RMin(a: real, b: real): real { if a <= b then a else b }

  /** `colorsys.rgb_to_hsv(r, g, b)` for components in [0, 1], in exact
      real arithmetic; the hue is reduced modulo 1 with Python's floored
      `%`. */
  function RgbToHsv(r: real, g: real, b: real): (hsv: (real, real, real))
    requires Unit(r) && Unit(g) && Unit(b)
    ensures Unit(hsv.0) && Unit(hsv.1) && Unit(hsv.2)
    ensures hsv.2 == RMax(r, RMax(g, b))
    ensures r == g == b ==> hsv == (0.0, 0.0, r)
    ensures r != g || g != b ==> 0.0 < hsv.1
  {
    var maxc := RMax(r, RMax(g, b));
    var minc := RMin(r, RMin(g, b));
    if minc == maxc then (0.0, 0.0, maxc)
    else (Hue(r, g, b, maxc, minc), Saturation(maxc, minc), maxc)
  }

  /** `colorsys` saturation: the spread of the components over the largest. */
  function Saturation(maxc: real, minc: real): (s: real)
    requires 0.0 <= minc < maxc <= 1.0
    ensures 0.0 < s <= 1.0
  {
    DivLe(maxc - minc, maxc, maxc);
    assert maxc / maxc == 1.0 by { assert (maxc / maxc) * maxc == maxc; }
    (maxc - minc) / maxc
  }

  /** `colorsys` hue of a colour whose components are not all equal: the
      sector of the largest component plus the offset within it, in turns
      and reduced modulo 1. */
  function Hue(r: real, g: real, b: real, maxc: real, minc: real): (h: real)
    requires minc < maxc
    ensures Unit(h) && h < 1.0
  {
    var rangec := maxc - minc;
    var rc, gc, bc := (maxc - r) / rangec, (maxc - g) / rangec, (maxc - b) / rangec;
    var h := if r == maxc then bc - gc else if g == maxc then 2.0 + rc - bc else 4.0 + gc - rc;
    var h6 := h / 6.0;
    h6 - h6.Floor as real
  }

  /** `int(x * 255)` for a component in [0, 1]: a byte. */
  function ToByte(x: real): (n: int)
    requires Unit(x)
    ensures 0 <= n < 256
    ensures x == 1.0 ==> n == 255
    ensures x == 0.0 ==> n == 0
  {
    MulLe(x, 1.0, 255.0);
    Trunc(x * 255.0)
  }

  /** The colour string the picker shows for (h, s, v):
      `"#%02x%02x%02x"` of `int(c * 255)` for each component of
      `hsv_to_rgb(h, s, v)`. */
  function HsvHex(h: real, s: real, v: real): (hex: string)
    requires Unit(h) && Unit(s) && Unit(v)
    ensures |hex| == 7 && hex[0] == '#'
  {
    var c := HsvToRgb(h, s, v);
    FormatHex(ToByte(c.r), ToByte(c.g), ToByte(c.b))
  }

  /** Every colour the picker produces parses back, through `color_rgba`,
      to the bytes of its `hsv_to_rgb` components. */
  lemma HsvHexParses(h: real, s: real, v: real, alpha: int)
    requires Unit(h) && Unit(s) && Unit(v)
    ensures var c := HsvToRgb(h, s, v);
            ColorRgba(HsvHex(h, s, v), alpha) == Some(Rgba(ToByte(c.r), ToByte(c.g), ToByte(c.b), alpha))
  {
    var c := HsvToRgb(h, s, v);
    ColorRgbaFormatHex(ToByte(c.r), ToByte(c.g), ToByte(c.b), alpha);
  }

  /** Saturation 0 gives a grey of the value's level, whatever the hue. */
  lemma HsvHexGrey(h: real, v: real)
    requires Unit(h) && Unit(v)
    ensures ColorRgba(HsvHex(h, 0.0, v), 255) == Some(Rgba(ToByte(v), ToByte(v), ToByte(v), 255))
  {
    HsvHexParses(h, 0.0, v, 255);
  }

  /** Value 0 gives black, whatever the hue and saturation. */
  lemma HsvHexBlack(h: real, s: real)
    requires Unit(h) && Unit(s)
    ensures HsvHex(h, s, 0.0) == "#000000"
  {
    var c := HsvToRgb(h, s, 0.0);
    assert c == Rgb(0.0, 0.0, 0.0);
    assert HsvHex(h, s, 0.0) == FormatHex(0, 0, 0);
  }
}
