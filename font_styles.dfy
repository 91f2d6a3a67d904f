/** syntect font-style flags and their packing into one byte (`font_style_to_u8`). */
module FontStyles {

  /** The three flags of syntect's `FontStyle`. */
  datatype FontFlag = Bold | Italic | Underline

  /** A `FontStyle` value: the set of flags it contains. */
  type FontStyle = set<FontFlag>

  /**
   * The numeric style the bindings publish: 1 for bold, 2 for italic and 4
   * for underline, added together.
   */
  function StyleValue(style: FontStyle): (v: nat)
    ensures v < 8
  {
    (if Bold in style then 1 else 0)
    + (if Italic in style then 2 else 0)
    + (if Underline in style then 4 else 0)
  }

  /** The flags a published style value stands for: bit 0 bold, bit 1 italic, bit 2 underline. */
  function FlagsOf(v: nat): (style: FontStyle)
    ensures Bold in style <==> v % 2 == 1
    ensures Italic in style <==> (v / 2) % 2 == 1
    ensures Underline in style <==> (v / 4) % 2 == 1
  {
    (if v % 2 == 1 then {Bold} else {})
    + (if (v / 2) % 2 == 1 then {Italic} else {})
    + (if (v / 4) % 2 == 1 then {Underline} else {})
  }

  /** Decoding the published value gives back exactly the flags that were set. */
  lemma StyleValueRoundTrip(style: FontStyle)
    ensures FlagsOf(StyleValue(style)) == style
  {
    var back := FlagsOf(StyleValue(style));
    forall f ensures f in back <==> f in style {
      match f
      case Bold =>
      case Italic =>
      case Underline =>
    }
  }

  /** Every value from 0 to 7 is the encoding of exactly one style. */
  lemma StyleValueOnto(v: nat)
    requires v < 8
    ensures StyleValue(FlagsOf(v)) == v
  {
  }

  /** Distinct styles never share a published value. */
  lemma StyleValueInjective(s1: FontStyle, s2: FontStyle)
    ensures StyleValue(s1) == StyleValue(s2) <==> s1 == s2
  {
    if StyleValue(s1) == StyleValue(s2) {
      StyleValueRoundTrip(s1);
      StyleValueRoundTrip(s2);
    }
  }

  /** The encoding table of the `font_style` field's documentation. */
  lemma StyleValueTable()
    ensures StyleValue({}) == 0
    ensures StyleValue({Bold}) == 1
    ensures StyleValue({Italic}) == 2
    ensures StyleValue({Bold, Italic}) == 3
    ensures StyleValue({Underline}) == 4
  {
  }

  /**
   * `font_style_to_u8`: starts from 0 and ORs in 1, 2 and 4 for bold,
   * italic and underline. Each bit is set exactly when its flag is.
   */
  method FontStyleToU8(style: FontStyle) returns (result: bv8)
    ensures result <= 7
    ensures (result & 1 != 0) <==> Bold in style
    ensures (result & 2 != 0) <==> Italic in style
    ensures (result & 4 != 0) <==> Underline in style
    ensures result as int == StyleValue(style)
  {
    result := 0;
    if Bold in style {
      result := result | 1;
    }
    if Italic in style {
      result := result | 2;
    }
    if Underline in style {
      result := result | 4;
    }
  }
}
