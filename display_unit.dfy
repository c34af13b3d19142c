/** Splitting text into display units: the text of one grid cell, cut off the
    front of a sequence of Unicode code points. The UTF-8 decoder and the
    east-asian width table are not part of this model: the text is already a
    sequence of code points, and the width table is a parameter. */
module DisplayUnit {

  type CodePoint = nat

  /** A display width as the width table reports it: -1 for a control
      character, 0 for a combining mark, 1 or 2 columns otherwise. */
  type Width = w: int | -1 <= w <= 2

  const Newline: CodePoint := 10
  const Space: CodePoint := 32
  /** What the decoder yields for bytes it cannot decode. */
  const UnknownUnicode: CodePoint := 0xFFFD
  /** A byte the decoder cannot decode stays in the text as it was. Such a
      byte `b` is written `RawBytes + b`, above the Unicode range, so that
      the text remains a faithful image of the bytes the cell holds. */
  const RawBytes: CodePoint := 0x11_0000

  /** The width of one code point: the table's, except that an undecodable
      code point or raw byte counts as one column. */
  function CharWidth(wcwidth: CodePoint -> Width, c: CodePoint): (w: Width)
    ensures c == UnknownUnicode || c >= RawBytes ==> w == 1
    ensures c != UnknownUnicode && c < RawBytes ==> w == wcwidth(c)
  {
    if c == UnknownUnicode || c >= RawBytes then 1 else wcwidth(c)
  }

  /** The text of one cell, its display width, and the code points after it. */
  datatype Unit = Unit(text: seq<CodePoint>, width: int, rest: seq<CodePoint>)

  /** `t` holds one cell's worth of text of display width `width`: no control
      character, at most one code point of positive width, and that one (if
      any) of width `width`; everything else is zero-width. */
  ghost predicate OneCell(wcwidth: CodePoint -> Width, t: seq<CodePoint>, width: int)
  {
    && 0 <= width <= 2
    && (forall j :: 0 <= j < |t| ==> CharWidth(wcwidth, t[j]) >= 0)
    && (forall j, k :: 0 <= j < k < |t| ==> CharWidth(wcwidth, t[j]) == 0 || CharWidth(wcwidth, t[k]) == 0)
    && (forall j :: 0 <= j < |t| && CharWidth(wcwidth, t[j]) > 0 ==> CharWidth(wcwidth, t[j]) == width)
    && (width > 0 ==> exists j :: 0 <= j < |t| && CharWidth(wcwidth, t[j]) > 0)
  }

  /** Splits one display unit off the front of `s`. */
  function Fill(wcwidth: CodePoint -> Width, s: seq<CodePoint>): (u: Unit)
    ensures 0 <= u.width <= 2
    ensures |s| == 0 ==> u == Unit([], 0, [])
    // on non-empty input at least one code point is consumed
    ensures |s| > 0 ==> |u.rest| < |s|
    // a leading control character becomes one space and only it is consumed
    ensures |s| > 0 && CharWidth(wcwidth, s[0]) == -1 ==> u == Unit([Space], 1, s[1..])
    // otherwise the unit is a prefix of the input holding one cell's worth of text
    ensures |s| > 0 && CharWidth(wcwidth, s[0]) != -1 ==>
      && u.text + u.rest == s
      && OneCell(wcwidth, u.text, u.width)
    // and it stops only before a control character or a second positive-width one
    ensures |s| > 0 && CharWidth(wcwidth, s[0]) != -1 && |u.rest| > 0 ==>
      CharWidth(wcwidth, u.rest[0]) == -1 || (CharWidth(wcwidth, u.rest[0]) > 0 && u.width > 0)
  {
    FillFrom(wcwidth, s, 0, 0)
  }

  /** The scan of `Fill` after `i` code points have been taken, with display
      width `dlen` so far. */
  function FillFrom(wcwidth: CodePoint -> Width, s: seq<CodePoint>, i: nat, dlen: int): (u: Unit)
    requires i <= |s|
    requires OneCell(wcwidth, s[..i], dlen)
    decreases |s| - i
    ensures 0 <= u.width <= 2
    ensures |u.rest| <= |s| - i
    ensures i == 0 && |s| > 0 ==> |u.rest| < |s|
    ensures i == 0 && |s| > 0 && CharWidth(wcwidth, s[0]) == -1 ==> u == Unit([Space], 1, s[1..])
    ensures !(i == 0 && |s| > 0 && CharWidth(wcwidth, s[0]) == -1) ==>
      && u.text + u.rest == s
      && OneCell(wcwidth, u.text, u.width)
      && (|u.rest| > 0 ==>
            CharWidth(wcwidth, u.rest[0]) == -1 || (CharWidth(wcwidth, u.rest[0]) > 0 && u.width > 0))
  {
    if i == |s| then
      assert s[..i] + s[i..] == s;
      Unit(s[..i], dlen, s[i..])
    else
      var cw := CharWidth(wcwidth, s[i]);
      if cw > 0 && dlen > 0 then
        // stop at the second code point of positive width
        assert s[..i] + s[i..] == s;
        Unit(s[..i], dlen, s[i..])
      else if cw == -1 && i == 0 then
        Unit([Space], 1, s[1..])
      else if cw == -1 then
        // a control character behind other text ends the unit
        assert s[..i] + s[i..] == s;
        Unit(s[..i], dlen, s[i..])
      else
        ExtendOneCell(wcwidth, s, i, dlen);
        FillFrom(wcwidth, s, i + 1, dlen + cw)
  }

  lemma ExtendOneCell(wcwidth: CodePoint -> Width, s: seq<CodePoint>, i: nat, dlen: int)
    requires i < |s|
    requires OneCell(wcwidth, s[..i], dlen)
    requires CharWidth(wcwidth, s[i]) >= 0
    requires !(CharWidth(wcwidth, s[i]) > 0 && dlen > 0)
    ensures OneCell(wcwidth, s[..i + 1], dlen + CharWidth(wcwidth, s[i]))
  {
    var t, t' := s[..i], s[..i + 1];
    assert t' == t + [s[i]];
    var cw := CharWidth(wcwidth, s[i]);
    if dlen == 0 {
      forall j | 0 <= j < |t| ensures CharWidth(wcwidth, t[j]) == 0 {
      }
    }
    if cw > 0 {
      assert CharWidth(wcwidth, t'[i]) > 0;
    } else if dlen > 0 {
      var j :| 0 <= j < |t| && CharWidth(wcwidth, t[j]) > 0;
      assert CharWidth(wcwidth, t'[j]) > 0;
    }
  }
}
