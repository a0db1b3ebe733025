/**
 * `SimpleList` of src/widgets/simple_list.rs: one span per row, scrolled so
 * that the selected item lands on the last row, with an optional highlight
 * symbol drawn in front of the selected item.
 */
module SimpleList {
  import opened Tui

  /** The list's configuration, as its builder methods leave it. */
  datatype SimpleList = SimpleList(items: seq<TextSpan>, selected: Option<nat>, highlight: Option<Highlight>)

  /** `x_offset`: the width reserved for the highlight symbol, 0 without one. */
  function HighlightWidth(l: SimpleList): nat
  {
    if l.highlight.Some? then l.highlight.value.width else 0
  }

  /**
   * `y_offset`: how many items are scrolled past so that the selection is
   * visible. Once the skip is applied, the selected item's index is always a
   * visible row of a non-empty area, and a selection at or past the last row
   * lands exactly on it; with no selection, or one above the last row,
   * nothing is skipped.
   */
  function YOffset(selected: Option<nat>, height: nat): (r: nat)
    ensures height > 0 && selected.Some? ==> r <= selected.value && selected.value - r < height
    ensures height > 0 && selected.Some? && selected.value >= height ==> selected.value - r == height - 1
    ensures selected.None? || selected.value < height ==> r == 0
  {
    if selected.Some? && selected.value >= height then SatSub(selected.value + 1, height) else 0
  }

  /** The items left after skipping `yOffset` of them. */
  function Skip(items: seq<TextSpan>, yOffset: nat): seq<TextSpan>
  {
    if yOffset <= |items| then items[yOffset..] else []
  }

  /** `is_selected`: the item's index after the skip is the selection minus the offset. */
  predicate IsSelected(selected: Option<nat>, i: nat, yOffset: nat)
  {
    selected.Some? && i == SatSub(selected.value, yOffset)
  }

  /**
   * What `render` demands of its inputs: `selected + 1` stays within `u16`,
   * and the unchecked `area.width - x_offset` does not underflow whenever an
   * item is drawn.
   */
  predicate Fits(l: SimpleList, area: Rect)
  {
    && (!area.IsEmpty() && l.selected.Some? && l.selected.value >= area.height ==> l.selected.value < U16_MAX)
    && (!area.IsEmpty() && YOffset(l.selected, area.height) < |l.items| ==> HighlightWidth(l) <= area.width)
  }

  /** The writes for item `i` after the skip: the highlight symbol if selected, then the item. */
  function ItemDraws(l: SimpleList, area: Rect, item: TextSpan, i: nat, yOffset: nat): seq<Draw>
    requires HighlightWidth(l) <= area.width
  {
    var maxWidth := area.width - HighlightWidth(l);
    if IsSelected(l.selected, i, yOffset) && l.highlight.Some? then
      [SetSpan(area.x, area.y + i, l.highlight.value.symbol, maxWidth),
       SetStringN(area.x + HighlightWidth(l), area.y + i, item.content, maxWidth, l.highlight.value.symbol.style)]
    else
      [SetStringN(area.x + HighlightWidth(l), area.y + i, item.content, maxWidth, item.style)]
  }

  /** The writes for the first `k` items after the skip. */
  function ItemsDraws(l: SimpleList, area: Rect, rows: seq<TextSpan>, yOffset: nat, k: nat): seq<Draw>
    requires k <= |rows| && (k == 0 || HighlightWidth(l) <= area.width)
  {
    if k == 0 then [] else ItemsDraws(l, area, rows, yOffset, k - 1) + ItemDraws(l, area, rows[k - 1], k - 1, yOffset)
  }

  /** Everything `render` writes, in order: as many items after the skip as there are rows. */
  function RenderSpec(l: SimpleList, area: Rect): seq<Draw>
    requires Fits(l, area)
  {
    var yOffset := YOffset(l.selected, area.height);
    var rows := Skip(l.items, yOffset);
    if area.IsEmpty() || rows == [] then []
    else ItemsDraws(l, area, rows, yOffset, Min(|rows|, area.height))
  }

  /** `render`: skip to the selection, then one row per item until the area is full. */
  method Render(l: SimpleList, area: Rect) returns (draws: seq<Draw>)
    requires Fits(l, area)
    ensures draws == RenderSpec(l, area)
    ensures area.IsEmpty() ==> draws == []
  {
    if area.width == 0 || area.height == 0 {
      return [];
    }
    var yOffset: nat := 0;
    if l.selected.Some? && l.selected.value >= area.height {
      assert l.selected.value + 1 <= U16_MAX;
      yOffset := SatSub(l.selected.value + 1, area.height);
    }
    var xOffset := if l.highlight.Some? then l.highlight.value.width else 0;

    var rows := if yOffset <= |l.items| then l.items[yOffset..] else [];
    assert yOffset == YOffset(l.selected, area.height) && rows == Skip(l.items, yOffset);
    draws := [];
    var i: nat := 0;
    while i < |rows|
      invariant i <= Min(|rows|, area.height)
      invariant draws == ItemsDraws(l, area, rows, yOffset, i)
    {
      if i >= area.height {
        break;
      }
      var itemDraws := DrawItem(l, area, rows[i], i, yOffset, xOffset);
      draws := draws + itemDraws;
      i := i + 1;
    }
  }

  /** One pass of the item loop of `render`: the highlight when the item is the selected one, then the item. */
  method DrawItem(l: SimpleList, area: Rect, item: TextSpan, i: nat, yOffset: nat, xOffset: nat) returns (draws: seq<Draw>)
    requires xOffset == HighlightWidth(l) <= area.width
    ensures draws == ItemDraws(l, area, item, i, yOffset)
  {
    var isSelected := l.selected.Some? && i == SatSub(l.selected.value, yOffset);
    var yPos := area.y + i;
    var maxWidth := area.width - xOffset;
    var style := item.style;
    draws := [];
    if isSelected && l.highlight.Some? {
      draws := [SetSpan(area.x, yPos, l.highlight.value.symbol, maxWidth)];
      style := l.highlight.value.symbol.style;
    }
    draws := draws + [SetStringN(area.x + xOffset, yPos, item.content, maxWidth, style)];
  }

  /// Properties

  /**
   * A write of the list: the highlight symbol at the area's left edge, or an
   * item past the highlight width, both limited to the width left after the
   * highlight.
   */
  predicate ListWrite(d: Draw, l: SimpleList, area: Rect)
    requires HighlightWidth(l) <= area.width
  {
    || (d.SetSpan? && d.x == area.x && d.maxWidth == area.width - HighlightWidth(l))
    || (d.SetStringN? && d.x == area.x + HighlightWidth(l) && d.maxWidth == area.width - HighlightWidth(l))
  }

  /** Whether the row at offset `i` below the area's top is the highlighted one. */
  predicate Highlighted(l: SimpleList, i: nat, yOffset: nat)
  {
    l.highlight.Some? && IsSelected(l.selected, i, yOffset)
  }

  /**
   * One item's writes: the highlight symbol then the item in the symbol's
   * style when the item is selected and there is a symbol, otherwise the
   * item alone in its own style; all on row `i`.
   */
  lemma ItemHighlight(l: SimpleList, area: Rect, item: TextSpan, i: nat, yOffset: nat)
    requires HighlightWidth(l) <= area.width
    ensures var ds := ItemDraws(l, area, item, i, yOffset);
            Highlighted(l, i, yOffset) ==>
              ds == [SetSpan(area.x, area.y + i, l.highlight.value.symbol, area.width - HighlightWidth(l)),
                     SetStringN(area.x + HighlightWidth(l), area.y + i, item.content, area.width - HighlightWidth(l), l.highlight.value.symbol.style)]
    ensures var ds := ItemDraws(l, area, item, i, yOffset);
            !Highlighted(l, i, yOffset) ==>
              ds == [SetStringN(area.x + HighlightWidth(l), area.y + i, item.content, area.width - HighlightWidth(l), item.style)]
  {
  }

  /**
   * The first `k` items after the skip: item `i` on row `area.y + i`, every
   * write shaped as above, and a highlight symbol drawn exactly when the
   * selected row is among them, on the selected row only.
   */
  lemma {:induction false} ItemsDrawsShape(l: SimpleList, area: Rect, rows: seq<TextSpan>, yOffset: nat, k: nat)
    requires k <= |rows| && HighlightWidth(l) <= area.width
    ensures forall d | d in ItemsDraws(l, area, rows, yOffset, k) :: ListWrite(d, l, area) && area.y <= d.y < area.y + k
    ensures forall d | d in ItemsDraws(l, area, rows, yOffset, k) && d.SetSpan? :: Highlighted(l, d.y - area.y, yOffset)
    ensures l.highlight.Some? && l.selected.Some? && SatSub(l.selected.value, yOffset) < k ==>
              SetSpan(area.x, area.y + SatSub(l.selected.value, yOffset), l.highlight.value.symbol, area.width - HighlightWidth(l))
                in ItemsDraws(l, area, rows, yOffset, k)
  {
    ItemsDrawsWrites(l, area, rows, yOffset, k);
    ItemsDrawsSymbol(l, area, rows, yOffset, k);
  }

  /** The first two parts of `ItemsDrawsShape`: where the writes go, and where a highlight symbol may go. */
  lemma {:induction false} ItemsDrawsWrites(l: SimpleList, area: Rect, rows: seq<TextSpan>, yOffset: nat, k: nat)
    requires k <= |rows| && HighlightWidth(l) <= area.width
    ensures forall d | d in ItemsDraws(l, area, rows, yOffset, k) :: ListWrite(d, l, area) && area.y <= d.y < area.y + k
    ensures forall d | d in ItemsDraws(l, area, rows, yOffset, k) && d.SetSpan? :: Highlighted(l, d.y - area.y, yOffset)
  {
    if k > 0 {
      ItemsDrawsWrites(l, area, rows, yOffset, k - 1);
      ItemHighlight(l, area, rows[k - 1], k - 1, yOffset);
    }
  }

  /** The last part of `ItemsDrawsShape`: the highlight symbol is drawn on the selected row once it is reached. */
  lemma {:induction false} ItemsDrawsSymbol(l: SimpleList, area: Rect, rows: seq<TextSpan>, yOffset: nat, k: nat)
    requires k <= |rows| && HighlightWidth(l) <= area.width
    ensures l.highlight.Some? && l.selected.Some? && SatSub(l.selected.value, yOffset) < k ==>
              SetSpan(area.x, area.y + SatSub(l.selected.value, yOffset), l.highlight.value.symbol, area.width - HighlightWidth(l))
                in ItemsDraws(l, area, rows, yOffset, k)
  {
    if k > 0 {
      ItemsDrawsSymbol(l, area, rows, yOffset, k - 1);
      ItemHighlight(l, area, rows[k - 1], k - 1, yOffset);
    }
  }

  /**
   * Every write of `render` lies on one of the first `min(items left, height)`
   * rows of the area, is shaped as above, and the highlight symbol appears
   * only on the selected row; with no selection there is none.
   */
  lemma RenderShape(l: SimpleList, area: Rect)
    requires Fits(l, area)
    ensures var rows := Skip(l.items, YOffset(l.selected, area.height));
            forall d | d in RenderSpec(l, area) ::
              && HighlightWidth(l) <= area.width
              && ListWrite(d, l, area)
              && area.y <= d.y < area.y + Min(|rows|, area.height) <= area.Bottom()
    ensures forall d | d in RenderSpec(l, area) && d.SetSpan? ::
              Highlighted(l, d.y - area.y, YOffset(l.selected, area.height))
    ensures l.selected.None? ==> forall d | d in RenderSpec(l, area) :: d.SetStringN?
  {
    var yOffset := YOffset(l.selected, area.height);
    var rows := Skip(l.items, yOffset);
    if !area.IsEmpty() && rows != [] {
      ItemsDrawsShape(l, area, rows, yOffset, Min(|rows|, area.height));
    }
  }
}
