/**
 * `SimpleText` of src/widgets/simple_text.rs: a single line of text in one
 * style, drawn aligned within the area's first row when its byte length fits.
 */
module SimpleText {
  import opened Tui
  import Lib

  datatype SimpleText = SimpleText(text: Text, alignment: Alignment, style: Style)

  /** `SimpleText::new`: left-aligned, in the default style. */
  function New(text: Text): (t: SimpleText)
    ensures t.text == text && t.alignment == Left && t.style == DefaultStyle
  {
    SimpleText(text, Left, DefaultStyle)
  }

  /**
   * `render`: nothing when the text's byte length, cast to `u16`, exceeds the
   * area's width; otherwise one write on the area's first row, at the
   * alignment offset of that length, ending within the area when the text is
   * shorter than 2^16 bytes.
   */
  function Render(t: SimpleText, area: Rect): (draws: seq<Draw>)
    ensures AsU16(ByteLen(t.text)) > area.width <==> draws == []
    ensures ByteLen(t.text) <= U16_MAX ==> (ByteLen(t.text) > area.width <==> draws == [])
    ensures draws != [] ==>
              && |draws| == 1
              && draws[0].SetString? && draws[0].y == area.y
              && draws[0].text == t.text && draws[0].style == t.style
              && area.x <= draws[0].x
              && draws[0].x + AsU16(ByteLen(t.text)) <= area.Right()
              && draws[0].x - area.x == Lib.AlignmentOffset(t.alignment, area.width, AsU16(ByteLen(t.text)))
              && (ByteLen(t.text) <= U16_MAX ==> draws[0].x + ByteLen(t.text) <= area.Right())
  {
    var len := AsU16(ByteLen(t.text));
    if area.width < len then []
    else
      var offset := Lib.AlignmentOffset(t.alignment, area.width, len);
      [SetString(area.x + offset, area.y, t.text, t.style)]
  }

  /** By default the text is drawn at the area's left edge, in the default style. */
  lemma DefaultAtLeft(text: Text, area: Rect)
    requires ByteLen(text) <= U16_MAX && ByteLen(text) <= area.width
    ensures Render(New(text), area) == [SetString(area.x, area.y, text, DefaultStyle)]
  {
  }

  /** Right-aligned text that fits ends exactly at the area's right edge. */
  lemma RightAlignedEndsAtRight(t: SimpleText, area: Rect)
    requires t.alignment == Right && ByteLen(t.text) <= U16_MAX && ByteLen(t.text) <= area.width
    ensures Render(t, area)[0].x + ByteLen(t.text) == area.Right()
  {
  }

  /**
   * The cast wraps: a text of 2^16 + `n` bytes passes the width check of an
   * area at least `n` wide and is drawn, though it is longer than the area.
   */
  lemma LongTextDrawn(t: SimpleText, area: Rect, n: nat)
    requires ByteLen(t.text) == 0x1_0000 + n && n <= area.width <= U16_MAX
    ensures ByteLen(t.text) > area.width
    ensures Render(t, area) == [SetString(area.x + Lib.AlignmentOffset(t.alignment, area.width, n), area.y, t.text, t.style)]
  {
    assert AsU16(ByteLen(t.text)) == n;
  }
}
