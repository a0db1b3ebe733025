/**
 * The pieces of the host terminal library (tui 0.14) that the toolkit works
 * with: rectangles, directions, alignments, styles, styled text, and the
 * calls the renderers make into the host's cell buffer, recorded as values.
 */
module Tui {

  /** Rust's `Option`. */
  datatype Option<T> = None | Some(value: T)

  /** Largest value of the source's `u16` coordinates and lengths. */
  const U16_MAX: nat := 65535

  /** The truncating cast `n as u16`: the value modulo 2^16. */
  function AsU16(n: nat): (r: nat)
    ensures r <= U16_MAX
    ensures n <= U16_MAX ==> r == n
  {
    n % 0x1_0000
  }

  /** `a.saturating_sub(b)` on unsigned integers. */
  function SatSub(a: nat, b: nat): nat
  {
    if a >= b then a - b else 0
  }

  function Min(a: nat, b: nat): nat
  {
    if a <= b then a else b
  }

  function Max(a: nat, b: nat): nat
  {
    if a >= b then a else b
  }

  /** A rectangle of grid cells; in tui 0.14 `top()` is `y` and `right()` is `x + width`. */
  datatype Rect = Rect(x: nat, y: nat, width: nat, height: nat)
  {
    function Left(): nat { x }
    function Top(): nat { y }
    function Right(): nat { x + width }
    function Bottom(): nat { y + height }
    predicate IsEmpty() { width == 0 || height == 0 }
  }

  datatype Direction = Horizontal | Vertical

  datatype Alignment = Left | Center | Right

  /** Stands for tui's `Style`; only its identity matters to the toolkit. */
  datatype Style = Style(id: nat)

  /** `Style::default()`. */
  const DefaultStyle: Style := Style(0)

  /**
   * One extended grapheme cluster, with the UTF-8 byte length and display width
   * that the host's Unicode tables give it.
   */
  datatype Grapheme = Grapheme(text: string, bytes: nat, width: nat)

  /** Text content, already segmented into graphemes. */
  type Text = seq<Grapheme>

  /** Display width of a text: the sum of its graphemes' widths. */
  function Width(t: Text): nat
  {
    if t == [] then 0 else Width(t[..|t| - 1]) + t[|t| - 1].width
  }

  /** Byte length of a text (`str::len`). */
  function ByteLen(t: Text): nat
  {
    if t == [] then 0 else ByteLen(t[..|t| - 1]) + t[|t| - 1].bytes
  }

  lemma {:induction false} WidthAppend(a: Text, b: Text)
    ensures Width(a + b) == Width(a) + Width(b)
    decreases |b|
  {
    if b == [] {
      assert a + b == a;
    } else {
      assert (a + b)[..|a + b| - 1] == a + b[..|b| - 1];
      WidthAppend(a, b[..|b| - 1]);
    }
  }

  /** tui's `Span`: a run of text with one style. */
  datatype TextSpan = TextSpan(content: Text, style: Style)

  /**
   * One call into the host buffer, in the order the renderer makes it:
   * `set_string`, `set_stringn`, `set_span`, and `get_mut(x, y).set_char(..).set_style(..)`.
   * How the host truncates or clips is not part of the model.
   */
  datatype Draw =
    | SetString(x: nat, y: nat, text: Text, style: Style)
    | SetStringN(x: nat, y: nat, text: Text, maxWidth: nat, style: Style)
    | SetSpan(x: nat, y: nat, span: TextSpan, maxWidth: nat)
    | SetCell(x: nat, y: nat, ch: char, style: Style)

  /**
   * The highlight symbol the table and list widgets keep, with the width it
   * reserves in front of every row.
   */
  datatype Highlight = Highlight(symbol: TextSpan, width: nat)

  /** `highlight_symbol`: the symbol reserves its display width, cast to `u16`. */
  function HighlightFor(symbol: TextSpan): (h: Highlight)
    ensures h.symbol == symbol
    ensures h.width <= U16_MAX
    ensures Width(symbol.content) <= U16_MAX ==> h.width == Width(symbol.content)
  {
    Highlight(symbol, AsU16(Width(symbol.content)))
  }
}
