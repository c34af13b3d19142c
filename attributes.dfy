/** The packed attribute value of an `nc_color`: a colour-pair index held in
    the bits of A_COLOR, and four independent style bits, all in one 32-bit
    word. */
module Attributes {

  const A_BLINK: bv32 := 0x0000_0800
  const A_BOLD: bv32 := 0x0000_2000
  const A_ITALIC: bv32 := 0x0080_0000
  const A_UNDERLINE: bv32 := 0x0000_0200
  /** Bits 17..22 and 24..25; bit 23 is A_ITALIC and is not part of the mask. */
  const A_COLOR: bv32 := 0x037e_0000

  datatype NcColor = NcColor(attributeValue: bv32)

  predicate IsBold(c: NcColor) { c.attributeValue & A_BOLD != 0 }
  predicate IsBlink(c: NcColor) { c.attributeValue & A_BLINK != 0 }
  predicate IsItalic(c: NcColor) { c.attributeValue & A_ITALIC != 0 }
  predicate IsUnderline(c: NcColor) { c.attributeValue & A_UNDERLINE != 0 }

  /** The pair index of an attribute value: its colour bits shifted down.
      Bit 6 of the index is always clear, because A_COLOR has a hole at
      bit 23. Words of the source's `int` are modelled as their 32-bit
      pattern. */
  function ToColorPairIndex(c: NcColor): (i: bv32)
    ensures i <= 0x1bf && i & 0x40 == 0
  {
    (c.attributeValue & A_COLOR) >> 17
  }

  /** The shift of the source is on a signed int: it is defined only while
      `index << 17` stays below 2^31. */
  function FromColorPairIndex(index: bv32): (c: NcColor)
    requires index < 0x4000
    ensures !IsBold(c) && !IsBlink(c) && !IsItalic(c) && !IsUnderline(c)
    ensures c.attributeValue & !A_COLOR == 0
    ensures index < 64 ==> ToColorPairIndex(c) == index
    ensures 64 <= index < 128 ==> ToColorPairIndex(c) == index - 64
  {
    NcColor((index << 17) & A_COLOR)
  }

  /** Pair indices survive the round trip exactly below 64; the pairs 64..99
      of the 100-entry table lose bit 6 and come back 64 lower. */
  lemma PairRoundTrip(i: bv32)
    requires i < 100
    ensures ToColorPairIndex(FromColorPairIndex(i)) == i <==> i < 64
    ensures i >= 64 ==> ToColorPairIndex(FromColorPairIndex(i)) == i - 64
  {
  }

  function Bold(c: NcColor): (r: NcColor)
    ensures IsBold(r)
    ensures ToColorPairIndex(r) == ToColorPairIndex(c)
    ensures IsBlink(r) == IsBlink(c)
    ensures IsItalic(r) == IsItalic(c)
    ensures IsUnderline(r) == IsUnderline(c)
  {
    NcColor(c.attributeValue | A_BOLD)
  }

  function Blink(c: NcColor): (r: NcColor)
    ensures IsBlink(r)
    ensures ToColorPairIndex(r) == ToColorPairIndex(c)
    ensures IsBold(r) == IsBold(c)
    ensures IsItalic(r) == IsItalic(c)
    ensures IsUnderline(r) == IsUnderline(c)
  {
    NcColor(c.attributeValue | A_BLINK)
  }

  function Italic(c: NcColor): (r: NcColor)
    ensures IsItalic(r)
    ensures ToColorPairIndex(r) == ToColorPairIndex(c)
    ensures IsBold(r) == IsBold(c)
    ensures IsBlink(r) == IsBlink(c)
    ensures IsUnderline(r) == IsUnderline(c)
  {
    NcColor(c.attributeValue | A_ITALIC)
  }

  function Underline(c: NcColor): (r: NcColor)
    ensures IsUnderline(r)
    ensures ToColorPairIndex(r) == ToColorPairIndex(c)
    ensures IsBold(r) == IsBold(c)
    ensures IsBlink(r) == IsBlink(c)
    ensures IsItalic(r) == IsItalic(c)
  {
    NcColor(c.attributeValue | A_UNDERLINE)
  }
}
