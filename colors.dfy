/** syntect colours and their `#RRGGBB` rendering (`color_to_hex`). */
module Colors {
  import opened Wrappers

  /** A `u8` channel value. */
  type Byte = x: int | 0 <= x < 256

  /** syntect's `Color { r, g, b, a }`. */
  datatype Color = Color(r: Byte, g: Byte, b: Byte, a: Byte)

  /** The three channels a `#RRGGBB` string carries. */
  datatype Rgb = Rgb(r: Byte, g: Byte, b: Byte)

  function Channels(c: Color): Rgb {
    Rgb(c.r, c.g, c.b)
  }

  predicate IsUpperHexDigit(ch: char) {
    '0' <= ch <= '9' || 'A' <= ch <= 'F'
  }

  predicate IsHexDigit(ch: char) {
    IsUpperHexDigit(ch) || 'a' <= ch <= 'f'
  }

  /** A string of the form `#` followed by six hex digits of either case. */
  predicate IsHexColor(s: string) {
    |s| == 7 && s[0] == '#' && forall i :: 1 <= i < 7 ==> IsHexDigit(s[i])
  }

  /** A string matching `^#[0-9A-F]{6}$`. */
  predicate IsUpperHexColor(s: string) {
    |s| == 7 && s[0] == '#' && forall i :: 1 <= i < 7 ==> IsUpperHexDigit(s[i])
  }

  /** The value of one hex digit of either case. */
  function ParseHexDigit(ch: char): (r: Option<nat>)
    ensures r.Some? <==> IsHexDigit(ch)
    ensures r.Some? ==> r.value < 16
  {
    if '0' <= ch <= '9' then Some(ch as int - '0' as int)
    else if 'A' <= ch <= 'F' then Some(ch as int - 'A' as int + 10)
    else if 'a' <= ch <= 'f' then Some(ch as int - 'a' as int + 10)
    else None
  }

  /** The upper-case digit that `{:X}` prints for `d`. */
  function HexDigit(d: nat): char
    requires d < 16
  {
    if d < 10 then ('0' as int + d) as char else ('A' as int + d - 10) as char
  }

  /** Every digit printed is an upper-case hex digit that reads back as `d`. */
  lemma HexDigitRoundTrip(d: nat)
    requires d < 16
    ensures IsUpperHexDigit(HexDigit(d))
    ensures ParseHexDigit(HexDigit(d)) == Some(d)
  {
  }

  /** `{:02X}`: a byte as exactly two upper-case hex digits, zero padded. */
  function Hex2(x: Byte): string {
    [HexDigit(x / 16), HexDigit(x % 16)]
  }

  /** Two upper-case digits that read back as the byte, high digit first. */
  lemma Hex2RoundTrip(x: Byte)
    ensures |Hex2(x)| == 2 && IsUpperHexDigit(Hex2(x)[0]) && IsUpperHexDigit(Hex2(x)[1])
    ensures ParseByte(Hex2(x)[0], Hex2(x)[1]) == Some(x)
  {
    HexDigitRoundTrip(x / 16);
    HexDigitRoundTrip(x % 16);
  }

  /** Two hex digits read back as a byte, high digit first. */
  function ParseByte(hi: char, lo: char): (r: Option<Byte>)
    ensures r.Some? <==> IsHexDigit(hi) && IsHexDigit(lo)
  {
    match (ParseHexDigit(hi), ParseHexDigit(lo))
    case (Some(h), Some(l)) => Some(16 * h + l)
    case _ => None
  }

  /** Reads a `#RRGGBB` string (digits of either case) back into its channels. */
  function ParseHexColor(s: string): (r: Option<Rgb>)
    ensures r.Some? <==> IsHexColor(s)
  {
    if |s| != 7 || s[0] != '#' then None
    else
      match (ParseByte(s[1], s[2]), ParseByte(s[3], s[4]), ParseByte(s[5], s[6]))
      case (Some(r), Some(g), Some(b)) => Some(Rgb(r, g, b))
      case _ => None
  }

  /** `color_to_hex`: `#` then r, g and b as two upper-case hex digits each; alpha is dropped. */
  function ColorToHex(c: Color): string {
    "#" + Hex2(c.r) + Hex2(c.g) + Hex2(c.b)
  }

  /**
   * The rendering is 7 characters, `#` and six upper-case hex digits, and
   * reading it back gives r, g and b in that order.
   */
  lemma ColorToHexRoundTrip(c: Color)
    ensures |ColorToHex(c)| == 7 && ColorToHex(c)[0] == '#'
    ensures IsUpperHexColor(ColorToHex(c))
    ensures ParseHexColor(ColorToHex(c)) == Some(Channels(c))
  {
    Hex2RoundTrip(c.r);
    Hex2RoundTrip(c.g);
    Hex2RoundTrip(c.b);
    var s := ColorToHex(c);
    assert s[1..3] == Hex2(c.r) && s[3..5] == Hex2(c.g) && s[5..7] == Hex2(c.b);
  }

  /** Two colours render alike exactly when their r, g and b agree; alpha never matters. */
  lemma ColorToHexInjective(c1: Color, c2: Color)
    ensures ColorToHex(c1) == ColorToHex(c2) <==> Channels(c1) == Channels(c2)
  {
    ColorToHexRoundTrip(c1);
    ColorToHexRoundTrip(c2);
  }

  /** Changing only the alpha channel leaves the rendering unchanged. */
  lemma ColorToHexIgnoresAlpha(c: Color, a: Byte)
    ensures ColorToHex(c.(a := a)) == ColorToHex(c)
  {
  }

  /** Every string of the form `#RRGGBB` in upper case is the rendering of some colour. */
  lemma ColorToHexOnto(s: string)
    requires IsUpperHexColor(s)
    ensures exists c: Color :: ColorToHex(c) == s
  {
    var rgb := ParseHexColor(s).value;
    DigitPairRoundTrip(s[1], s[2]);
    DigitPairRoundTrip(s[3], s[4]);
    DigitPairRoundTrip(s[5], s[6]);
    var c := Color(rgb.r, rgb.g, rgb.b, 255);
    assert ColorToHex(c) == [s[0]] + [s[1], s[2]] + [s[3], s[4]] + [s[5], s[6]];
    assert ColorToHex(c) == s;
  }

  /** Two upper-case digits are what `{:02X}` prints for the byte they denote. */
  lemma DigitPairRoundTrip(hi: char, lo: char)
    requires IsUpperHexDigit(hi) && IsUpperHexDigit(lo)
    ensures ParseByte(hi, lo).Some? && Hex2(ParseByte(hi, lo).value) == [hi, lo]
  {
    var h, l := ParseHexDigit(hi).value, ParseHexDigit(lo).value;
    var x := 16 * h + l;
    assert x / 16 == h && x % 16 == l;
    UpperHexDigitRoundTrip(hi);
    UpperHexDigitRoundTrip(lo);
  }

  /** An upper-case digit is the one `HexDigit` prints for its value. */
  lemma UpperHexDigitRoundTrip(ch: char)
    requires IsUpperHexDigit(ch)
    ensures ParseHexDigit(ch).Some? && HexDigit(ParseHexDigit(ch).value) == ch
  {
  }
}
