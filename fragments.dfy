/**
 * The fragment model of src/widgets/mod.rs: a closed union of a styled span
 * (with its options), a single styled character and a line break, and the
 * length and line queries over fragment sequences.
 */
module Fragments {
  import opened Tui

  /** What happens to a span larger than its render area. */
  datatype OverflowMode = Hide | Truncate

  datatype SpanOptions = SpanOptions(overflow: OverflowMode)

  /** `OverflowMode::default()`. */
  const DefaultOverflowMode: OverflowMode := Hide

  /** `SpanOptions::default()`. */
  const DefaultSpanOptions: SpanOptions := SpanOptions(DefaultOverflowMode)

  datatype Fragment =
    | Span(span: TextSpan, options: SpanOptions)
    | Char(ch: char, style: Style)
    | Line

  /** `Fragment::span`: a span fragment with the default options, which hide an overflowing span. */
  function SpanFragment(span: TextSpan): (f: Fragment)
    ensures f.Span? && f.span == span
    ensures f.options.overflow == Hide
  {
    Span(span, DefaultSpanOptions)
  }

  /** `is_line`: the line break is the one fragment without fields. */
  predicate IsLine(f: Fragment)
    ensures IsLine(f) <==> f == Line
  {
    f.Line?
  }

  /** `len`: display width of a span cast to `u16`, 1 for a character, 0 for a line break. */
  function Len(f: Fragment): (r: nat)
    ensures r <= U16_MAX
    ensures r == 0 <==> f.Line? || (f.Span? && Width(f.span.content) % 0x1_0000 == 0)
    ensures f.Span? && Width(f.span.content) <= U16_MAX ==> r == Width(f.span.content)
  {
    match f
    case Span(span, _) => AsU16(Width(span.content))
    case Char(_, _) => 1
    case Line => 0
  }

  /**
   * `total_len`: the sum of the items' lengths, line breaks included (they add
   * 0). Each item adds at most 65535, and the sum is 0 exactly when every item
   * has length 0.
   */
  function TotalLen(items: seq<Fragment>): (r: nat)
    ensures r <= U16_MAX * |items|
    ensures r == 0 <==> forall i | 0 <= i < |items| :: Len(items[i]) == 0
  {
    if items == [] then 0
    else
      var rest := TotalLen(items[1..]);
      assert forall i | 1 <= i < |items| :: items[i] == items[1..][i - 1];
      Len(items[0]) + rest
  }

  lemma {:induction false} TotalLenAppend(a: seq<Fragment>, b: seq<Fragment>)
    ensures TotalLen(a + b) == TotalLen(a) + TotalLen(b)
    decreases |a|
  {
    if a == [] {
      assert a + b == b;
    } else {
      assert (a + b)[1..] == a[1..] + b;
      TotalLenAppend(a[1..], b);
    }
  }

  /** `line_items`: the longest prefix of `items` that holds no line break. */
  function LineItems(items: seq<Fragment>): (r: seq<Fragment>)
    ensures r <= items
    ensures forall i | 0 <= i < |r| :: !IsLine(r[i])
    ensures |r| < |items| ==> IsLine(items[|r|])
  {
    if items == [] || IsLine(items[0]) then [] else [items[0]] + LineItems(items[1..])
  }

  /** `line_len`: the total length of the current line, which never exceeds the total length. */
  function LineLen(items: seq<Fragment>): (r: nat)
    ensures r <= TotalLen(items)
  {
    var line := LineItems(items);
    assert items == line + items[|line|..];
    TotalLenAppend(line, items[|line|..]);
    TotalLen(line)
  }

  /** The number of line breaks among the items. */
  function CountLines(items: seq<Fragment>): nat
  {
    if items == [] then 0 else (if IsLine(items[0]) then 1 else 0) + CountLines(items[1..])
  }

  lemma {:induction false} CountLinesAppend(a: seq<Fragment>, b: seq<Fragment>)
    ensures CountLines(a + b) == CountLines(a) + CountLines(b)
    decreases |a|
  {
    if a == [] {
      assert a + b == b;
    } else {
      assert (a + b)[1..] == a[1..] + b;
      CountLinesAppend(a[1..], b);
    }
  }

  lemma {:induction false} NoBreaksCountNone(items: seq<Fragment>)
    ensures CountLines(items) == 0 <==> forall i | 0 <= i < |items| :: !IsLine(items[i])
    decreases |items|
  {
    if items != [] {
      NoBreaksCountNone(items[1..]);
      assert forall i | 1 <= i < |items| :: items[i] == items[1..][i - 1];
    }
  }

  /**
   * `num_lines`: one more than the number of line breaks, so an empty or
   * break-free sequence is one line.
   */
  function NumLines(items: seq<Fragment>): (r: nat)
    ensures r >= 1
    ensures r == 1 <==> forall i | 0 <= i < |items| :: !IsLine(items[i])
  {
    NoBreaksCountNone(items);
    1 + CountLines(items)
  }

  /** Joining two sequences with a line break adds their line counts. */
  lemma NumLinesJoin(a: seq<Fragment>, b: seq<Fragment>)
    ensures NumLines(a + [Line] + b) == NumLines(a) + NumLines(b)
  {
    CountLinesAppend(a + [Line], b);
    CountLinesAppend(a, [Line]);
    assert CountLines([Line]) == 1;
  }
}
