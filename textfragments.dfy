/**
 * The older fragment widget (src/widgets/text_fragments.rs): its own
 * fragment union, whose spans say whether their length is display width or
 * bytes, its length and line queries, and `render`, which draws each run of
 * fragments between line breaks on its own row.
 */
module TextFragments {
  import opened Tui
  import Lib

  /** A span carries whether its length is its display width (true) or its byte length (false). */
  datatype Fragment =
    | Span(span: TextSpan, unicode: bool)
    | Char(ch: char, style: Style)
    | Line

  /** `is_line`: the fragment is a line break. */
  predicate IsLine(f: Fragment)
    ensures IsLine(f) <==> f == Line
  {
    f.Line?
  }

  predicate NoLine(items: seq<Fragment>)
  {
    forall i | 0 <= i < |items| :: !IsLine(items[i])
  }

  /** `len`: byte length or display width of a span, cast to `u16`; 1 for a character, 0 for a line break. */
  function Len(f: Fragment): nat
  {
    match f
    case Span(span, unicode) => AsU16(if unicode then Width(span.content) else ByteLen(span.content))
    case Char(_, _) => 1
    case Line => 0
  }

  /**
   * The length fits in `u16`. A span's length is its display width or its byte
   * length when that fits; a longer one is cut down by the cast. A character
   * counts 1 and a line break 0.
   */
  lemma LenCast(f: Fragment)
    ensures Len(f) <= U16_MAX
    ensures f.Span? && f.unicode && Width(f.span.content) <= U16_MAX ==> Len(f) == Width(f.span.content)
    ensures f.Span? && !f.unicode && ByteLen(f.span.content) <= U16_MAX ==> Len(f) == ByteLen(f.span.content)
    ensures f.Span? && !f.unicode && ByteLen(f.span.content) == 0x1_0000 ==> Len(f) == 0
    ensures f.Char? ==> Len(f) == 1
    ensures f.Line? ==> Len(f) == 0
  {
  }

  /** `total_len`: the sum of the lengths. */
  function TotalLen(items: seq<Fragment>): nat
  {
    if items == [] then 0 else TotalLen(items[..|items| - 1]) + Len(items[|items| - 1])
  }

  /** Each fragment adds at most 65535 to the unbounded sum. */
  lemma {:induction false} TotalLenBound(items: seq<Fragment>)
    ensures TotalLen(items) <= U16_MAX * |items|
  {
    if items != [] {
      TotalLenBound(items[..|items| - 1]);
      LenCast(items[|items| - 1]);
    }
  }

  lemma {:induction false} TotalLenAppend(a: seq<Fragment>, b: seq<Fragment>)
    ensures TotalLen(a + b) == TotalLen(a) + TotalLen(b)
    decreases |b|
  {
    if b == [] {
      assert a + b == a;
    } else {
      assert (a + b)[..|a + b| - 1] == a + b[..|b| - 1];
      TotalLenAppend(a, b[..|b| - 1]);
    }
  }

  /** `line_items`: the longest prefix of `items` that holds no line break. */
  function LineItems(items: seq<Fragment>): (r: seq<Fragment>)
    ensures r <= items
    ensures NoLine(r)
    ensures |r| < |items| ==> IsLine(items[|r|])
  {
    if items == [] || IsLine(items[0]) then [] else [items[0]] + LineItems(items[1..])
  }

  /** `line_len`: the length of the current line, never more than the total, all of it when there is no break. */
  function LineLen(items: seq<Fragment>): (r: nat)
    ensures r <= TotalLen(items)
    ensures NoLine(items) ==> r == TotalLen(items)
  {
    var line := LineItems(items);
    assert items == line + items[|line|..];
    TotalLenAppend(line, items[|line|..]);
    assert NoLine(items) ==> |line| == |items|;
    TotalLen(line)
  }

  /** `num_lines`: the number of line breaks alone, so a break-free sequence gives 0. */
  function NumLines(items: seq<Fragment>): (r: nat)
    ensures r <= |items|
    ensures r == 0 <==> NoLine(items)
  {
    if items == [] then 0
    else
      var rest := NumLines(items[1..]);
      assert NoLine(items) <==> !IsLine(items[0]) && NoLine(items[1..]) by {
        assert forall i | 1 <= i < |items| :: items[i] == items[1..][i - 1];
      }
      (if IsLine(items[0]) then 1 else 0) + rest
  }

  /** `can_draw_at_x`: a fragment may end at `x` when `x` is not past the area's right edge. */
  predicate CanDrawAtX(area: Rect, x: nat)
    ensures CanDrawAtX(area, x) <==> x <= area.x + area.width
  {
    x <= area.Right()
  }

  /** `can_draw_at_y`: compares `y`, a row offset inside the area, with the area's absolute top. */
  predicate CanDrawAtY(area: Rect, y: nat)
    ensures CanDrawAtY(area, y) <==> y <= area.y
  {
    y <= area.Top()
  }

  /// Lines

  /** The runs of fragments between line breaks, in order: one more run than there are breaks. */
  function Lines(items: seq<Fragment>): (r: seq<seq<Fragment>>)
    ensures |r| >= 1
    ensures r[0] == LineItems(items)
    decreases |items|
  {
    var line := LineItems(items);
    if |line| == |items| then [items] else [line] + Lines(items[|line| + 1..])
  }

  /** Lines put back together with a break between consecutive ones. */
  function JoinLines(lines: seq<seq<Fragment>>): seq<Fragment>
    requires |lines| >= 1
  {
    if |lines| == 1 then lines[0] else lines[0] + [Line] + JoinLines(lines[1..])
  }

  lemma {:induction false} NumLinesAppend(a: seq<Fragment>, b: seq<Fragment>)
    ensures NumLines(a + b) == NumLines(a) + NumLines(b)
    decreases |a|
  {
    if a == [] {
      assert a + b == b;
    } else {
      assert (a + b)[1..] == a[1..] + b;
      NumLinesAppend(a[1..], b);
    }
  }

  /**
   * Splitting into lines gives one line per break plus one, no line holds a
   * break, and joining the lines with breaks gives the items back.
   */
  lemma LinesShape(items: seq<Fragment>)
    ensures |Lines(items)| == NumLines(items) + 1
    ensures forall k | 0 <= k < |Lines(items)| :: NoLine(Lines(items)[k])
    ensures JoinLines(Lines(items)) == items
  {
    LinesCount(items);
    LinesBreakFree(items);
    LinesJoin(items);
  }

  /** The first line ends at the first break, so the items are the line, the break and the rest. */
  lemma LineSplit(items: seq<Fragment>)
    requires |LineItems(items)| < |items|
    ensures var line := LineItems(items);
            items == line + [Line] + items[|line| + 1..]
  {
    var line := LineItems(items);
    SplitAt(items, |line|);
    assert items[..|line|] == line;
    assert items[|line|] == Line;
  }

  lemma SplitAt<T>(s: seq<T>, i: nat)
    requires i < |s|
    ensures s == s[..i] + [s[i]] + s[i + 1..]
  {
  }

  lemma {:induction false} LinesCount(items: seq<Fragment>)
    ensures |Lines(items)| == NumLines(items) + 1
    decreases |items|
  {
    var line := LineItems(items);
    if |line| == |items| {
      assert line == items;
    } else {
      LinesCount(items[|line| + 1..]);
      NumLinesAfterLine(items);
    }
  }

  /** The breaks of items with a break: the first line's (none), the break itself, and those after it. */
  lemma NumLinesAfterLine(items: seq<Fragment>)
    requires |LineItems(items)| < |items|
    ensures var line := LineItems(items);
            NumLines(items) == NumLines(line) + 1 + NumLines(items[|line| + 1..])
  {
    var line := LineItems(items);
    var rest := items[|line| + 1..];
    LineSplit(items);
    NumLinesAppend(line + [Line], rest);
    NumLinesAppend(line, [Line]);
    assert [Line][1..] == [];
  }

  lemma {:induction false} LinesBreakFree(items: seq<Fragment>)
    ensures forall k | 0 <= k < |Lines(items)| :: NoLine(Lines(items)[k])
    decreases |items|
  {
    var line := LineItems(items);
    if |line| < |items| {
      var rest := items[|line| + 1..];
      LinesBreakFree(rest);
      var lines := Lines(items);
      assert lines == [line] + Lines(rest);
      forall k | 1 <= k < |lines|
        ensures NoLine(lines[k])
      {
        assert lines[k] == Lines(rest)[k - 1];
      }
    }
  }

  lemma {:induction false} LinesJoin(items: seq<Fragment>)
    ensures JoinLines(Lines(items)) == items
    decreases |items|
  {
    var line := LineItems(items);
    if |line| < |items| {
      var rest := items[|line| + 1..];
      LinesJoin(rest);
      LineSplit(items);
      var lines := Lines(items);
      assert lines == [line] + Lines(rest);
      assert lines[1..] == Lines(rest);
    }
  }

  /// Drawing

  /** The buffer call for one fragment that is not a line break. */
  function ItemDraw(f: Fragment, x: nat, y: nat): Draw
    requires !IsLine(f)
  {
    match f
    case Span(span, _) => SetString(x, y, span.content, span.style)
    case Char(ch, style) => SetCell(x, y, ch, style)
  }

  /**
   * The draws the inner loop of `render` makes for one line from `x` on row
   * `y`: fragment after fragment, until one would end past `right` or a line
   * break is met.
   */
  function LineOut(line: seq<Fragment>, x: nat, y: nat, right: nat): seq<Draw>
    decreases |line|
  {
    if line == [] || x + Len(line[0]) > right || IsLine(line[0]) then []
    else [ItemDraw(line[0], x, y)] + LineOut(line[1..], x + Len(line[0]), y, right)
  }

  /** Whether a fragment of the line would end past `right`, which ends the whole render. */
  predicate LineStops(line: seq<Fragment>, x: nat, right: nat)
    decreases |line|
  {
    line != [] &&
    (x + Len(line[0]) > right || (!IsLine(line[0]) && LineStops(line[1..], x + Len(line[0]), right)))
  }

  /** Where line `line` starts: the area's left edge plus the aligned offset of its total length. */
  function LineStart(line: seq<Fragment>, alignment: Alignment, area: Rect): nat
  {
    area.x + Lib.AlignmentOffset(alignment, area.width, TotalLen(line))
  }

  /**
   * What `render` draws from the items `rest` on, starting with line `k`:
   * the line up to the next break on row `area.y + k`, then the lines after
   * that break, unless a fragment did not fit, there is no break left, or
   * the next row offset fails `can_draw_at_y`.
   */
  function RenderRest(rest: seq<Fragment>, k: nat, area: Rect, alignment: Alignment): seq<Draw>
    decreases |rest|
  {
    var line := LineItems(rest);
    var x := LineStart(line, alignment, area);
    var drawn := LineOut(line, x, area.y + k, area.Right());
    if LineStops(line, x, area.Right()) || !CanDrawAtY(area, k + 1) || |line| == |rest| then drawn
    else drawn + RenderRest(rest[|line| + 1..], k + 1, area, alignment)
  }

  /** What `render` draws: nothing on an empty area, else the lines from the first. */
  function RenderSpec(items: seq<Fragment>, alignment: Alignment, area: Rect): seq<Draw>
  {
    if area.IsEmpty() then [] else RenderRest(items, 0, area, alignment)
  }

  /**
   * The inner loop of `render`: draws the line's fragments left to right from
   * `x` on row `y` and reports whether one did not fit, which in the source
   * leaves the outer loop too (`break 'outer`).
   */
  method DrawLine(lineItems: seq<Fragment>, x: nat, y: nat, area: Rect) returns (draws: seq<Draw>, stopped: bool)
    ensures draws == LineOut(lineItems, x, y, area.Right())
    ensures stopped == LineStops(lineItems, x, area.Right())
  {
    draws := [];
    stopped := false;
    var offsetX := x;
    var j := 0;
    assert lineItems[0..] == lineItems;
    assert [] + LineOut(lineItems, x, y, area.Right()) == LineOut(lineItems, x, y, area.Right());
    while j < |lineItems|
      invariant j <= |lineItems|
      invariant LineOut(lineItems, x, y, area.Right()) == draws + LineOut(lineItems[j..], offsetX, y, area.Right())
      invariant LineStops(lineItems, x, area.Right()) == LineStops(lineItems[j..], offsetX, area.Right())
      decreases |lineItems| - j
    {
      var item := lineItems[j];
      var len := Len(item);
      LineOutStep(lineItems, j, offsetX, y, area.Right());

      if !CanDrawAtX(area, offsetX + len) {
        stopped := true;
        assert draws + [] == draws;
        return;
      }

      var d: Draw;
      match item {
        case Span(span, _) =>
          d := SetString(offsetX, y, span.content, span.style);
        case Char(ch, style) =>
          d := SetCell(offsetX, y, ch, style);
        case Line =>
          assert draws + [] == draws;
          break;
      }
      assert d == ItemDraw(item, offsetX, y);
      Reassociate(draws, d, LineOut(lineItems[j + 1..], offsetX + len, y, area.Right()));
      draws := draws + [d];

      offsetX := offsetX + len;
      j := j + 1;
    }
    if j == |lineItems| {
      assert lineItems[j..] == [];
      assert draws + [] == draws;
    }
  }

  lemma Reassociate<T>(a: seq<T>, d: T, b: seq<T>)
    ensures a + ([d] + b) == (a + [d]) + b
  {
  }

  /** `LineOut` and `LineStops` from fragment `j` on, unfolded once. */
  lemma LineOutStep(line: seq<Fragment>, j: nat, x: nat, y: nat, right: nat)
    requires j < |line|
    ensures var f := line[j];
            && (x + Len(f) > right ==> LineOut(line[j..], x, y, right) == [] && LineStops(line[j..], x, right))
            && (x + Len(f) <= right && IsLine(f) ==> LineOut(line[j..], x, y, right) == [] && !LineStops(line[j..], x, right))
            && (x + Len(f) <= right && !IsLine(f) ==>
                  && LineOut(line[j..], x, y, right) == [ItemDraw(f, x, y)] + LineOut(line[j + 1..], x + Len(f), y, right)
                  && LineStops(line[j..], x, right) == LineStops(line[j + 1..], x + Len(f), right))
  {
    assert line[j..][0] == line[j];
    assert line[j..][1..] == line[j + 1..];
  }

  /** What `render` has still to draw when its outer loop stands at `itemOffset` and line `k`. */
  ghost function Remaining(items: seq<Fragment>, itemOffset: nat, k: nat, area: Rect, alignment: Alignment): seq<Draw>
  {
    if itemOffset <= |items| then RenderRest(items[itemOffset..], k, area, alignment) else []
  }

  /**
   * One pass of the outer loop of `render`: drawing the line at `lineOffset`
   * either ends the render or moves on past the line's break to line `k + 1`.
   */
  lemma RenderRestStep(items: seq<Fragment>, lineOffset: nat, k: nat, area: Rect, alignment: Alignment,
                       before: seq<Draw>, lineDraws: seq<Draw>, stopped: bool, spec: seq<Draw>)
    requires lineOffset <= |items|
    requires before + Remaining(items, lineOffset, k, area, alignment) == spec
    requires var slice := items[lineOffset..];
             var line := LineItems(slice);
             RenderRest(slice, k, area, alignment) ==
               if stopped || !CanDrawAtY(area, k + 1) || |line| == |slice| then lineDraws
               else lineDraws + RenderRest(slice[|line| + 1..], k + 1, area, alignment)
    ensures stopped || !CanDrawAtY(area, k + 1) ==> before + lineDraws == spec
    ensures !stopped && CanDrawAtY(area, k + 1) ==>
              (before + lineDraws) + Remaining(items, lineOffset + |LineItems(items[lineOffset..])| + 1, k + 1, area, alignment) == spec
  {
    var slice := items[lineOffset..];
    var line := LineItems(slice);
    if stopped || !CanDrawAtY(area, k + 1) || |line| == |slice| {
      RenderRestEnds(items, lineOffset, k, area, alignment, before, lineDraws, stopped, spec);
    } else {
      RenderRestGoesOn(items, lineOffset, k, area, alignment, before, lineDraws, stopped, spec);
    }
  }

  /** The pass that ends the render: what was drawn before and this line make up everything. */
  lemma RenderRestEnds(items: seq<Fragment>, lineOffset: nat, k: nat, area: Rect, alignment: Alignment,
                       before: seq<Draw>, lineDraws: seq<Draw>, stopped: bool, spec: seq<Draw>)
    requires lineOffset <= |items|
    requires before + Remaining(items, lineOffset, k, area, alignment) == spec
    requires var line := LineItems(items[lineOffset..]);
             stopped || !CanDrawAtY(area, k + 1) || |line| == |items[lineOffset..]|
    requires RenderRest(items[lineOffset..], k, area, alignment) == lineDraws
    ensures before + lineDraws == spec
    ensures Remaining(items, lineOffset + |LineItems(items[lineOffset..])| + 1, k + 1, area, alignment) == [] ||
            stopped || !CanDrawAtY(area, k + 1)
  {
  }

  /** A pass that moves on: the rest of the render starts past the line's break, on the next row. */
  lemma RenderRestGoesOn(items: seq<Fragment>, lineOffset: nat, k: nat, area: Rect, alignment: Alignment,
                         before: seq<Draw>, lineDraws: seq<Draw>, stopped: bool, spec: seq<Draw>)
    requires lineOffset <= |items|
    requires before + Remaining(items, lineOffset, k, area, alignment) == spec
    requires var line := LineItems(items[lineOffset..]);
             |line| < |items[lineOffset..]| &&
             RenderRest(items[lineOffset..], k, area, alignment) ==
               lineDraws + RenderRest(items[lineOffset..][|line| + 1..], k + 1, area, alignment)
    ensures (before + lineDraws) + Remaining(items, lineOffset + |LineItems(items[lineOffset..])| + 1, k + 1, area, alignment) == spec
  {
    var next := lineOffset + |LineItems(items[lineOffset..])| + 1;
    RemainingGoesOn(items, lineOffset, k, area, alignment, lineDraws);
    SeqAssoc(before, lineDraws, Remaining(items, next, k + 1, area, alignment));
  }

  /** What is left to draw from a line after which the render goes on: its draws, then what is left past its break. */
  lemma RemainingGoesOn(items: seq<Fragment>, lineOffset: nat, k: nat, area: Rect, alignment: Alignment, lineDraws: seq<Draw>)
    requires lineOffset <= |items|
    requires var line := LineItems(items[lineOffset..]);
             |line| < |items[lineOffset..]| &&
             RenderRest(items[lineOffset..], k, area, alignment) ==
               lineDraws + RenderRest(items[lineOffset..][|line| + 1..], k + 1, area, alignment)
    ensures Remaining(items, lineOffset, k, area, alignment) ==
              lineDraws + Remaining(items, lineOffset + |LineItems(items[lineOffset..])| + 1, k + 1, area, alignment)
  {
    var line := LineItems(items[lineOffset..]);
    var next := lineOffset + |line| + 1;
    SliceOfSlice(items, lineOffset, |line| + 1);
    RemainingFrom(items, next, k + 1, area, alignment);
    RemainingFrom(items, lineOffset, k, area, alignment);
  }

  lemma RemainingFrom(items: seq<Fragment>, itemOffset: nat, k: nat, area: Rect, alignment: Alignment)
    requires itemOffset <= |items|
    ensures Remaining(items, itemOffset, k, area, alignment) == RenderRest(items[itemOffset..], k, area, alignment)
  {
  }

  lemma SliceOfSlice<T>(s: seq<T>, a: nat, b: nat)
    requires a + b <= |s|
    ensures s[a..][b..] == s[a + b..]
  {
  }

  lemma SeqAssoc<T>(a: seq<T>, b: seq<T>, c: seq<T>)
    ensures a + (b + c) == (a + b) + c
  {
  }

  /** `RenderRest` unfolded once, with the first line's draws and stop flag named. */
  lemma RenderRestUnfold(rest: seq<Fragment>, k: nat, area: Rect, alignment: Alignment, lineDraws: seq<Draw>, stopped: bool)
    requires var line := LineItems(rest);
             var x := LineStart(line, alignment, area);
             lineDraws == LineOut(line, x, area.y + k, area.Right()) && stopped == LineStops(line, x, area.Right())
    ensures var line := LineItems(rest);
            RenderRest(rest, k, area, alignment) ==
              if stopped || !CanDrawAtY(area, k + 1) || |line| == |rest| then lineDraws
              else lineDraws + RenderRest(rest[|line| + 1..], k + 1, area, alignment)
  {
  }

  /**
   * One pass of the outer loop of `render` up to the row step: the line from
   * `itemOffset` to the next break, drawn at its aligned start on row `offsetY`,
   * and the item offset just past that break.
   */
  method DrawPass(items: seq<Fragment>, itemOffset: nat, offsetY: nat, area: Rect, alignment: Alignment)
    returns (lineDraws: seq<Draw>, stopped: bool, next: nat)
    requires itemOffset <= |items|
    ensures next == itemOffset + |LineItems(items[itemOffset..])| + 1
    ensures var slice := items[itemOffset..];
            var line := LineItems(slice);
            RenderRest(slice, offsetY, area, alignment) ==
              if stopped || !CanDrawAtY(area, offsetY + 1) || |line| == |slice| then lineDraws
              else lineDraws + RenderRest(slice[|line| + 1..], offsetY + 1, area, alignment)
  {
    var slice := items[itemOffset..];
    var lineItems := LineItems(slice);
    var nextLinePos := |lineItems|;
    next := itemOffset + nextLinePos + 1;

    var offsetX := Lib.AlignmentOffset(alignment, area.width, TotalLen(lineItems));
    lineDraws, stopped := DrawLine(lineItems, area.x + offsetX, area.y + offsetY, area);
    RenderRestUnfold(slice, offsetY, area, alignment, lineDraws, stopped);
  }

  /** `TextFragments::render`, returning the buffer calls it makes in order. */
  method Render(items: seq<Fragment>, alignment: Alignment, area: Rect) returns (draws: seq<Draw>)
    ensures draws == RenderSpec(items, alignment, area)
    ensures area.IsEmpty() ==> draws == []
  {
    draws := [];
    if area.width == 0 || area.height == 0 {
      return;
    }

    var itemOffset: nat := 0;
    var offsetY: nat := 0;
    ghost var spec := RenderSpec(items, alignment, area);
    assert items[0..] == items;

    while itemOffset <= |items|
      invariant itemOffset <= |items| + 1
      invariant draws + Remaining(items, itemOffset, offsetY, area, alignment) == spec
      decreases |items| + 1 - itemOffset
    {
      ghost var lineOffset := itemOffset;
      var lineDraws, stopped, next := DrawPass(items, itemOffset, offsetY, area, alignment);
      itemOffset := next;
      RenderRestStep(items, lineOffset, offsetY, area, alignment, draws, lineDraws, stopped, spec);
      draws := draws + lineDraws;
      if stopped {
        break;
      }

      offsetY := offsetY + 1;

      if !CanDrawAtY(area, offsetY) {
        break;
      }
    }
    assert draws + [] == draws;
  }

  /// Properties of `render`

  lemma TotalLenCons(f: Fragment, t: seq<Fragment>)
    ensures TotalLen([f] + t) == Len(f) + TotalLen(t)
  {
    TotalLenAppend([f], t);
    assert [f][..0] == [];
  }

  /**
   * Draw `i` of a line started at `x` is fragment `i`, drawn where the
   * fragments before it end, and the fragment ends within `right`.
   */
  predicate PlacedAt(line: seq<Fragment>, out: seq<Draw>, x: nat, y: nat, right: nat, i: nat)
    requires i < |out| && i < |line| && !IsLine(line[i])
  {
    out[i] == ItemDraw(line[i], x + TotalLen(line[..i]), y) && x + TotalLen(line[..i + 1]) <= right
  }

  /**
   * The fragments of a line are drawn left to right, each starting where the
   * previous one ended and ending within `right`; drawing stops at the first
   * fragment that would end past `right`, and exactly then the render stops.
   */
  lemma LineOutPlaced(line: seq<Fragment>, x: nat, y: nat, right: nat)
    requires NoLine(line)
    ensures |LineOut(line, x, y, right)| <= |line|
    ensures forall i | 0 <= i < |LineOut(line, x, y, right)| :: PlacedAt(line, LineOut(line, x, y, right), x, y, right, i)
    ensures LineStops(line, x, right) <==> |LineOut(line, x, y, right)| < |line|
    ensures |LineOut(line, x, y, right)| < |line| ==> x + TotalLen(line[..|LineOut(line, x, y, right)| + 1]) > right
  {
    LineOutDraws(line, x, y, right);
    LineOutCut(line, x, y, right);
  }

  /** The first half of `LineOutPlaced`: where each drawn fragment goes. */
  lemma {:induction false} LineOutDraws(line: seq<Fragment>, x: nat, y: nat, right: nat)
    requires NoLine(line)
    ensures |LineOut(line, x, y, right)| <= |line|
    ensures forall i | 0 <= i < |LineOut(line, x, y, right)| :: PlacedAt(line, LineOut(line, x, y, right), x, y, right, i)
    decreases |line|
  {
    if line != [] {
      var f := line[0];
      var rest := line[1..];
      assert line[..1] == [f] + [];
      TotalLenCons(f, []);
      if x + Len(f) <= right {
        NoLineRest(line);
        LineOutDraws(rest, x + Len(f), y, right);
        var out := LineOut(line, x, y, right);
        var restOut := LineOut(rest, x + Len(f), y, right);
        assert out == [ItemDraw(f, x, y)] + restOut;
        assert line[..0] == [];
        forall i | 0 <= i < |out|
          ensures PlacedAt(line, out, x, y, right, i)
        {
          if i > 0 {
            assert PlacedAt(rest, restOut, x + Len(f), y, right, i - 1);
            TotalLenStep(line, i);
            assert out[i] == restOut[i - 1];
            assert line[i] == rest[i - 1];
          }
        }
      }
    }
  }

  /** The second half of `LineOutPlaced`: where and why the line is cut. */
  lemma {:induction false} LineOutCut(line: seq<Fragment>, x: nat, y: nat, right: nat)
    requires NoLine(line)
    ensures LineStops(line, x, right) <==> |LineOut(line, x, y, right)| < |line|
    ensures |LineOut(line, x, y, right)| < |line| ==> x + TotalLen(line[..|LineOut(line, x, y, right)| + 1]) > right
    decreases |line|
  {
    if line != [] {
      var f := line[0];
      var rest := line[1..];
      if x + Len(f) <= right {
        NoLineRest(line);
        LineOutCut(rest, x + Len(f), y, right);
        var restOut := LineOut(rest, x + Len(f), y, right);
        assert |LineOut(line, x, y, right)| == |restOut| + 1;
        if |restOut| < |rest| {
          TotalLenStep(line, |restOut| + 1);
        }
      } else {
        assert line[..1] == [f] + [];
        TotalLenCons(f, []);
      }
    }
  }

  /** A line without breaks stays without breaks after its first fragment. */
  lemma NoLineRest(line: seq<Fragment>)
    requires line != [] && NoLine(line)
    ensures NoLine(line[1..])
  {
    assert forall i | 0 <= i < |line[1..]| :: line[1..][i] == line[i + 1];
  }

  /** The length of a prefix of `line` past its first fragment: that fragment's, then the rest's. */
  lemma TotalLenStep(line: seq<Fragment>, i: nat)
    requires 1 <= i && i + 1 <= |line|
    ensures TotalLen(line[..i]) == Len(line[0]) + TotalLen(line[1..][..i - 1])
    ensures TotalLen(line[..i + 1]) == Len(line[0]) + TotalLen(line[1..][..i])
  {
    assert line[..i] == [line[0]] + line[1..][..i - 1];
    assert line[..i + 1] == [line[0]] + line[1..][..i];
    TotalLenCons(line[0], line[1..][..i - 1]);
    TotalLenCons(line[0], line[1..][..i]);
  }

  /** Every draw of a line is on the line's row. */
  lemma {:induction false} LineOutRow(line: seq<Fragment>, x: nat, y: nat, right: nat)
    ensures forall d | d in LineOut(line, x, y, right) :: d.y == y
    decreases |line|
  {
    if line != [] && x + Len(line[0]) <= right && !IsLine(line[0]) {
      LineOutRow(line[1..], x + Len(line[0]), y, right);
    }
  }

  /**
   * Row bounds of the draws from line `k` on: a further line is started only
   * while the row offset is at most `area.y`, so every draw lies on a row
   * from `area.y + k` to `area.y + max(k, area.y)`, whatever the area's
   * height, and no further down than the number of breaks left.
   */
  lemma RenderRows(rest: seq<Fragment>, k: nat, area: Rect, alignment: Alignment)
    ensures RowsIn(RenderRest(rest, k, area, alignment), area.y + k, area.y + Max(k, area.y), area.y + k + NumLines(rest))
  {
    var lines := Lines(rest);
    var n := DrawnLines(lines, k, area, alignment);
    DrawnLinesStop(lines, k, area, alignment);
    RenderRestLines(rest, k, area, alignment);
    LinesOutRows(lines, n, k, area, alignment);
    LinesCount(rest);
    if n >= 2 {
      assert !EndsAfter(lines, n - 2, k, area, alignment);
    }
    assert k + n - 1 <= Max(k, area.y) && k + n - 1 <= k + NumLines(rest);
  }

  /// The render line by line

  /**
   * The draws of the first `n` of `lines`: line `j` from its aligned start on
   * row `area.y + k + j`, cut as the inner loop of `render` cuts it.
   */
  function LinesOut(lines: seq<seq<Fragment>>, n: nat, k: nat, area: Rect, alignment: Alignment): seq<Draw>
    requires n <= |lines|
    decreases n
  {
    if n == 0 then []
    else LineOut(lines[0], LineStart(lines[0], alignment, area), area.y + k, area.Right()) +
         LinesOut(lines[1..], n - 1, k + 1, area, alignment)
  }

  /**
   * Whether `render` stops after line `j` of `lines`, line 0 being on row
   * offset `k`: it was the last line, a fragment of it did not fit, or the
   * next row offset fails `can_draw_at_y`.
   */
  predicate EndsAfter(lines: seq<seq<Fragment>>, j: nat, k: nat, area: Rect, alignment: Alignment)
    requires j < |lines|
  {
    j + 1 == |lines| ||
    LineStops(lines[j], LineStart(lines[j], alignment, area), area.Right()) ||
    !CanDrawAtY(area, k + j + 1)
  }

  /** The number of lines drawn: up to and including the first line after which `render` stops. */
  function DrawnLines(lines: seq<seq<Fragment>>, k: nat, area: Rect, alignment: Alignment): (n: nat)
    requires |lines| >= 1
    ensures 1 <= n <= |lines|
    decreases |lines|
  {
    if EndsAfter(lines, 0, k, area, alignment) then 1 else 1 + DrawnLines(lines[1..], k + 1, area, alignment)
  }

  /** `render` stops after the last line drawn and after no line before it. */
  lemma {:induction false} DrawnLinesStop(lines: seq<seq<Fragment>>, k: nat, area: Rect, alignment: Alignment)
    requires |lines| >= 1
    ensures var n := DrawnLines(lines, k, area, alignment);
            && EndsAfter(lines, n - 1, k, area, alignment)
            && forall j | 0 <= j < n - 1 :: !EndsAfter(lines, j, k, area, alignment)
    decreases |lines|
  {
    if !EndsAfter(lines, 0, k, area, alignment) {
      DrawnLinesStop(lines[1..], k + 1, area, alignment);
      EndsAfterShift(lines, k, area, alignment);
    }
  }

  /** Line `j + 1` of `lines` is line `j` of `lines[1..]`, one row further down. */
  lemma EndsAfterShift(lines: seq<seq<Fragment>>, k: nat, area: Rect, alignment: Alignment)
    requires |lines| >= 2
    ensures forall j | 1 <= j < |lines| ::
              EndsAfter(lines[1..], j - 1, k + 1, area, alignment) == EndsAfter(lines, j, k, area, alignment)
  {
    forall j | 1 <= j < |lines|
      ensures EndsAfter(lines[1..], j - 1, k + 1, area, alignment) == EndsAfter(lines, j, k, area, alignment)
    {
      assert lines[1..][j - 1] == lines[j];
    }
  }

  /**
   * `render` line by line: the draws from `rest` on are those of its lines,
   * line `j` from its aligned start on row `area.y + k + j`, up to and
   * including the first line after which the render stops.
   */
  lemma {:induction false} RenderRestLines(rest: seq<Fragment>, k: nat, area: Rect, alignment: Alignment)
    ensures RenderRest(rest, k, area, alignment) ==
              LinesOut(Lines(rest), DrawnLines(Lines(rest), k, area, alignment), k, area, alignment)
    decreases |rest|, 1
  {
    var line := LineItems(rest);
    var x := LineStart(line, alignment, area);
    if |line| == |rest| || LineStops(line, x, area.Right()) || !CanDrawAtY(area, k + 1) {
      LinesLast(rest, k, area, alignment);
    } else {
      LinesGoOn(rest, k, area, alignment);
    }
  }

  /** The line after which `render` stops is the last line it draws. */
  lemma LinesLast(rest: seq<Fragment>, k: nat, area: Rect, alignment: Alignment)
    requires var line := LineItems(rest);
             |line| == |rest| || LineStops(line, LineStart(line, alignment, area), area.Right()) || !CanDrawAtY(area, k + 1)
    ensures RenderRest(rest, k, area, alignment) ==
              LinesOut(Lines(rest), DrawnLines(Lines(rest), k, area, alignment), k, area, alignment)
  {
    var lines := Lines(rest);
    var line := LineItems(rest);
    var drawn := LineOut(line, LineStart(line, alignment, area), area.y + k, area.Right());
    RenderRestUnfold(rest, k, area, alignment, drawn, LineStops(line, LineStart(line, alignment, area), area.Right()));
    assert EndsAfter(lines, 0, k, area, alignment) by {
      if |line| == |rest| {
        assert lines == [rest];
      } else {
        assert lines == [line] + Lines(rest[|line| + 1..]);
      }
    }
    assert DrawnLines(lines, k, area, alignment) == 1;
    LinesOutFirst(lines, 1, k, area, alignment);
    assert drawn + [] == drawn;
  }

  /** A line after which `render` goes on: its draws, then the lines of the items after its break. */
  lemma {:induction false} LinesGoOn(rest: seq<Fragment>, k: nat, area: Rect, alignment: Alignment)
    requires var line := LineItems(rest);
             |line| < |rest| && !LineStops(line, LineStart(line, alignment, area), area.Right()) && CanDrawAtY(area, k + 1)
    ensures RenderRest(rest, k, area, alignment) ==
              LinesOut(Lines(rest), DrawnLines(Lines(rest), k, area, alignment), k, area, alignment)
    decreases |rest|, 0
  {
    var line := LineItems(rest);
    var next := rest[|line| + 1..];
    RenderRestLines(next, k + 1, area, alignment);
    RenderRestGoOn(rest, k, area, alignment);
    LinesOutGoOn(rest, k, area, alignment);
  }

  /** The lines drawn from a line after which `render` goes on: its draws, then the lines after its break from the next row. */
  lemma LinesOutGoOn(rest: seq<Fragment>, k: nat, area: Rect, alignment: Alignment)
    requires var line := LineItems(rest);
             |line| < |rest| && !LineStops(line, LineStart(line, alignment, area), area.Right()) && CanDrawAtY(area, k + 1)
    ensures var line := LineItems(rest);
            var next := rest[|line| + 1..];
            LinesOut(Lines(rest), DrawnLines(Lines(rest), k, area, alignment), k, area, alignment) ==
              LineOut(line, LineStart(line, alignment, area), area.y + k, area.Right()) +
              LinesOut(Lines(next), DrawnLines(Lines(next), k + 1, area, alignment), k + 1, area, alignment)
  {
    var next := rest[|LineItems(rest)| + 1..];
    var m := DrawnLines(Lines(next), k + 1, area, alignment);
    DrawnLinesRest(rest, k, area, alignment);
    LinesOutRest(rest, m, k, area, alignment);
  }

  /** A line after which `render` goes on: its draws, then the render of the items after its break. */
  lemma RenderRestGoOn(rest: seq<Fragment>, k: nat, area: Rect, alignment: Alignment)
    requires var line := LineItems(rest);
             |line| < |rest| && !LineStops(line, LineStart(line, alignment, area), area.Right()) && CanDrawAtY(area, k + 1)
    ensures var line := LineItems(rest);
            RenderRest(rest, k, area, alignment) ==
              LineOut(line, LineStart(line, alignment, area), area.y + k, area.Right()) +
              RenderRest(rest[|line| + 1..], k + 1, area, alignment)
  {
    var line := LineItems(rest);
    RenderRestUnfold(rest, k, area, alignment, LineOut(line, LineStart(line, alignment, area), area.y + k, area.Right()), false);
  }

  /** A line after which `render` goes on adds one to the lines drawn from the items after its break. */
  lemma DrawnLinesRest(rest: seq<Fragment>, k: nat, area: Rect, alignment: Alignment)
    requires var line := LineItems(rest);
             |line| < |rest| && !LineStops(line, LineStart(line, alignment, area), area.Right()) && CanDrawAtY(area, k + 1)
    ensures DrawnLines(Lines(rest), k, area, alignment) ==
              DrawnLines(Lines(rest[|LineItems(rest)| + 1..]), k + 1, area, alignment) + 1
  {
    LinesCons(rest);
    DrawnLinesCons(LineItems(rest), Lines(rest[|LineItems(rest)| + 1..]), k, area, alignment);
  }

  /** The draws of the lines of items with a break: the first line's, then those after the break from the next row. */
  lemma LinesOutRest(rest: seq<Fragment>, n: nat, k: nat, area: Rect, alignment: Alignment)
    requires |LineItems(rest)| < |rest| && n <= |Lines(rest[|LineItems(rest)| + 1..])|
    ensures var line := LineItems(rest);
            LinesOut(Lines(rest), n + 1, k, area, alignment) ==
              LineOut(line, LineStart(line, alignment, area), area.y + k, area.Right()) +
              LinesOut(Lines(rest[|line| + 1..]), n, k + 1, area, alignment)
  {
    LinesCons(rest);
    LinesOutCons(LineItems(rest), Lines(rest[|LineItems(rest)| + 1..]), n, k, area, alignment);
  }

  /** Items with a break: the first line, then the lines after the break. */
  lemma LinesCons(rest: seq<Fragment>)
    requires |LineItems(rest)| < |rest|
    ensures Lines(rest) == [LineItems(rest)] + Lines(rest[|LineItems(rest)| + 1..])
  {
  }

  lemma TailOfCons<T>(x: T, s: seq<T>)
    ensures |[x] + s| == 1 + |s| && ([x] + s)[0] == x && ([x] + s)[1..] == s
  {
  }

  /** A line after which `render` goes on adds one to the lines drawn from the next row. */
  lemma DrawnLinesCons(line: seq<Fragment>, lines: seq<seq<Fragment>>, k: nat, area: Rect, alignment: Alignment)
    requires |lines| >= 1 && !LineStops(line, LineStart(line, alignment, area), area.Right())
    requires CanDrawAtY(area, k + 1)
    ensures DrawnLines([line] + lines, k, area, alignment) == DrawnLines(lines, k + 1, area, alignment) + 1
  {
    TailOfCons(line, lines);
    assert !EndsAfter([line] + lines, 0, k, area, alignment);
  }

  /** The draws of a first line, then those of the lines after it from the next row. */
  lemma LinesOutCons(line: seq<Fragment>, lines: seq<seq<Fragment>>, n: nat, k: nat, area: Rect, alignment: Alignment)
    requires n <= |lines|
    ensures LinesOut([line] + lines, n + 1, k, area, alignment) ==
              LineOut(line, LineStart(line, alignment, area), area.y + k, area.Right()) +
              LinesOut(lines, n, k + 1, area, alignment)
  {
    TailOfCons(line, lines);
  }

  /** The first line's draws, then the others from the next row. */
  lemma LinesOutFirst(lines: seq<seq<Fragment>>, n: nat, k: nat, area: Rect, alignment: Alignment)
    requires 1 <= n <= |lines|
    ensures LinesOut(lines, n, k, area, alignment) ==
              LineOut(lines[0], LineStart(lines[0], alignment, area), area.y + k, area.Right()) +
              LinesOut(lines[1..], n - 1, k + 1, area, alignment)
  {
  }

  /** The draws of `n` lines from row offset `k` lie on rows `area.y + k` to `area.y + k + n - 1`. */
  lemma {:induction false} LinesOutRows(lines: seq<seq<Fragment>>, n: nat, k: nat, area: Rect, alignment: Alignment)
    requires n <= |lines|
    ensures forall d | d in LinesOut(lines, n, k, area, alignment) :: area.y + k <= d.y < area.y + k + n
    decreases n
  {
    if n > 0 {
      LinesOutFirst(lines, n, k, area, alignment);
      LineOutRow(lines[0], LineStart(lines[0], alignment, area), area.y + k, area.Right());
      LinesOutRows(lines[1..], n - 1, k + 1, area, alignment);
    }
  }

  /**
   * What `render` draws, line by line: nothing on an empty area, else line
   * `j` of the items from its aligned start on row `area.y + j`, for every
   * line up to and including the first after which it stops.
   */
  lemma RenderLines(items: seq<Fragment>, alignment: Alignment, area: Rect)
    ensures RenderSpec(items, alignment, area) ==
              if area.IsEmpty() then []
              else LinesOut(Lines(items), DrawnLines(Lines(items), 0, area, alignment), 0, area, alignment)
  {
    if !area.IsEmpty() {
      RenderRestLines(items, 0, area, alignment);
    }
  }

  /** Every draw is on a row from `lo` to `hi`, and none is past `cap`. */
  predicate RowsIn(ds: seq<Draw>, lo: nat, hi: nat, cap: nat)
  {
    forall d | d in ds :: lo <= d.y <= hi && d.y <= cap
  }


  /**
   * The row offset is compared with the area's absolute top: an area at the
   * top of the screen gets one line however tall it is.
   */
  lemma OneLineAtTop(style: Style)
    ensures RenderSpec([Char('a', style), Line, Char('b', style)], Left, Rect(0, 0, 10, 5)) == [SetCell(0, 0, 'a', style)]
  {
    var items := [Char('a', style), Line, Char('b', style)];
    var area := Rect(0, 0, 10, 5);
    assert LineItems(items[1..]) == [];
    assert LineItems(items) == [Char('a', style)];
    assert TotalLen([Char('a', style)]) == 1;
    assert LineOut([Char('a', style)][1..], 1, 0, 10) == [];
    assert !LineStops([Char('a', style)][1..], 1, 10);
    assert RenderRest(items, 0, area, Left) == [SetCell(0, 0, 'a', style)];
  }
}
