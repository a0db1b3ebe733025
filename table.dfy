/**
 * `SimpleTable` of src/widgets/table.rs: a header row and windowed data rows
 * laid out in columns by a horizontal split, scrolled so that the selected
 * row lands on the last visible row, with an optional highlight symbol in
 * front of the selected row.
 */
module Table {
  import opened Tui
  import Layout

  /** The table's configuration, as its builder methods leave it. */
  datatype SimpleTable = SimpleTable(
    data: seq<seq<TextSpan>>,
    layout: seq<Layout.BasicConstraint>,
    header: Option<seq<TextSpan>>,
    selected: Option<nat>,
    highlight: Option<Highlight>)

  /** `offset_x`: the width reserved for the highlight symbol, 0 without one. */
  function HighlightWidth(t: SimpleTable): nat
  {
    if t.highlight.Some? then t.highlight.value.width else 0
  }

  /** `header_offset`: the rows the header takes. */
  function HeaderRows(t: SimpleTable): nat
  {
    if t.header.Some? then 1 else 0
  }

  /** The column split of a non-empty area. */
  function Columns(t: SimpleTable, area: Rect): seq<Rect>
    requires Layout.SplitFits(Layout.New(Horizontal), area, t.layout)
  {
    Layout.SplitRects(Layout.New(Horizontal), area, t.layout)
  }

  /** What `render` demands of its inputs: the split stays within `u16`, and so does `selected + 1` where it is computed (after a header of the right length). */
  predicate Fits(t: SimpleTable, area: Rect)
  {
    && (!area.IsEmpty() ==> Layout.SplitFits(Layout.New(Horizontal), area, t.layout))
    && (!area.IsEmpty() && (t.header.None? || |t.header.value| == |t.layout|) ==>
          t.selected.Some? && t.selected.value >= SatSub(area.height, HeaderRows(t)) ==> t.selected.value < U16_MAX)
  }

  /**
   * The number of columns, counted from `c`, that leave room after the
   * highlight offset: the first column no wider than `offsetX` ends them.
   */
  function RoomFrom(cells: seq<Rect>, offsetX: nat, c: nat): (r: nat)
    requires c <= |cells|
    ensures c <= r <= |cells|
    ensures forall i | c <= i < r :: cells[i].width > offsetX
    ensures r < |cells| ==> cells[r].width <= offsetX
    decreases |cells| - c
  {
    if c == |cells| || cells[c].width <= offsetX then c else RoomFrom(cells, offsetX, c + 1)
  }

  /** The header writes: column `i` at its column's x past the offset, on its column's row. */
  function HeaderDraws(columns: seq<TextSpan>, cells: seq<Rect>, offsetX: nat): seq<Draw>
    requires |columns| == |cells|
  {
    var n := RoomFrom(cells, offsetX, 0);
    seq(n, i requires 0 <= i < n => SetSpan(offsetX + cells[i].x, cells[i].y, columns[i], SatSub(cells[i].width, offsetX)))
  }

  /** The write for field `i` of a row at vertical offset `offsetY`, with the highlight style when given. */
  function CellDraw(field: TextSpan, cell: Rect, offsetX: nat, offsetY: nat, highlightStyle: Option<Style>): Draw
  {
    SetStringN(offsetX + cell.x, offsetY + cell.y, field.content, SatSub(cell.width, offsetX),
               if highlightStyle.Some? then highlightStyle.value else field.style)
  }

  function CellDraws(row: seq<TextSpan>, cells: seq<Rect>, offsetX: nat, offsetY: nat, highlightStyle: Option<Style>): seq<Draw>
    requires |row| == |cells|
  {
    var n := RoomFrom(cells, offsetX, 0);
    seq(n, i requires 0 <= i < n => CellDraw(row[i], cells[i], offsetX, offsetY, highlightStyle))
  }

  /**
   * `item_offset`: how many data rows are scrolled past so that the selection
   * is visible. Once the skip is applied, the selected row's index is always a
   * visible row (below the header, above the area's bottom), and when the
   * selection is at or past the last visible row it lands exactly on that row;
   * with no selection, or one above the last visible row, nothing is skipped.
   */
  function ItemOffset(selected: Option<nat>, height: nat, headerRows: nat): (r: nat)
    ensures headerRows <= 1 && headerRows < height && selected.Some? ==>
              r <= selected.value && selected.value - r + headerRows < height
    ensures headerRows <= 1 && headerRows < height && selected.Some? && selected.value >= height - headerRows ==>
              selected.value - r == height - headerRows - 1
    ensures selected.None? || selected.value < SatSub(height, headerRows) ==> r == 0
  {
    if selected.Some? && selected.value >= SatSub(height, headerRows)
    then headerRows + SatSub(selected.value + 1, height)
    else 0
  }

  /** `is_selected`: the row's index after the skip is the selection minus the offset. */
  predicate IsSelected(selected: Option<nat>, rowIndex: nat, itemOffset: nat)
  {
    selected.Some? && rowIndex == SatSub(selected.value, itemOffset)
  }

  /** The rows left after skipping `itemOffset` of them. */
  function Skip(data: seq<seq<TextSpan>>, itemOffset: nat): seq<seq<TextSpan>>
  {
    if itemOffset <= |data| then data[itemOffset..] else []
  }

  /**
   * The number of rows drawn, counted from `j`: drawing stops at the first
   * row that would fall below the area or whose field count differs from the
   * column count.
   */
  function ShownFrom(rows: seq<seq<TextSpan>>, n: nat, headerRows: nat, height: nat, j: nat): (r: nat)
    requires j <= |rows|
    ensures j <= r <= |rows|
    ensures forall i | j <= i < r :: i + headerRows < height && |rows[i]| == n
    ensures r < |rows| ==> r + headerRows >= height || |rows[r]| != n
    decreases |rows| - j
  {
    if j == |rows| || j + headerRows >= height || |rows[j]| != n then j
    else
      var r := ShownFrom(rows, n, headerRows, height, j + 1);
      RowsFitStep(rows, n, headerRows, height, j, r);
      r
  }

  /** A row that fits in front of a run of rows that fit makes a longer run. */
  lemma RowsFitStep(rows: seq<seq<TextSpan>>, n: nat, headerRows: nat, height: nat, j: nat, r: nat)
    requires j < r <= |rows| && j + headerRows < height && |rows[j]| == n
    requires forall i | j + 1 <= i < r :: i + headerRows < height && |rows[i]| == n
    ensures forall i | j <= i < r :: i + headerRows < height && |rows[i]| == n
  {
  }

  /** The writes for the row at `rowIndex` after the skip: the highlight symbol if selected, then its fields. */
  function RowDraws(t: SimpleTable, cells: seq<Rect>, row: seq<TextSpan>, rowIndex: nat, itemOffset: nat, area: Rect): seq<Draw>
    requires |row| == |cells|
  {
    var highlighted := IsSelected(t.selected, rowIndex, itemOffset) && t.highlight.Some?;
    var offsetY := HeaderRows(t) + rowIndex;
    (if highlighted then [SetSpan(area.x, offsetY + area.y, t.highlight.value.symbol, t.highlight.value.width)] else []) +
    CellDraws(row, cells, HighlightWidth(t), offsetY, if highlighted then Some(t.highlight.value.symbol.style) else None)
  }

  /** The writes for the first `k` rows after the skip. */
  function RowsDraws(t: SimpleTable, cells: seq<Rect>, rows: seq<seq<TextSpan>>, itemOffset: nat, area: Rect, k: nat): seq<Draw>
    requires k <= |rows| && forall i | 0 <= i < k :: |rows[i]| == |cells|
  {
    if k == 0 then [] else RowsDraws(t, cells, rows, itemOffset, area, k - 1) + RowDraws(t, cells, rows[k - 1], k - 1, itemOffset, area)
  }

  /** Everything `render` writes, in order, as a function of the table and the area. */
  function RenderSpec(t: SimpleTable, area: Rect): seq<Draw>
    requires Fits(t, area)
  {
    if area.IsEmpty() then []
    else
      var cells := Columns(t, area);
      if t.header.Some? && |t.header.value| != |cells| then []
      else
        var header := if t.header.Some? then HeaderDraws(t.header.value, cells, HighlightWidth(t)) else [];
        var itemOffset := ItemOffset(t.selected, area.height, HeaderRows(t));
        var rows := Skip(t.data, itemOffset);
        header + RowsDraws(t, cells, rows, itemOffset, area, ShownFrom(rows, |cells|, HeaderRows(t), area.height, 0))
  }

  /** The header loop: one write per column until a column has no room. */
  method DrawHeader(columns: seq<TextSpan>, cells: seq<Rect>, offsetX: nat) returns (draws: seq<Draw>)
    requires |columns| == |cells|
    ensures draws == HeaderDraws(columns, cells, offsetX)
  {
    ghost var n := RoomFrom(cells, offsetX, 0);
    draws := [];
    var i := 0;
    while i < |columns|
      invariant i <= n
      invariant draws == HeaderDraws(columns, cells, offsetX)[..i]
    {
      var pos := cells[i];
      var maxWidth := SatSub(pos.width, offsetX);
      if maxWidth == 0 {
        break;
      }
      draws := draws + [SetSpan(offsetX + pos.x, pos.y, columns[i], maxWidth)];
      i := i + 1;
    }
    assert draws == HeaderDraws(columns, cells, offsetX)[..n];
  }

  /** The loop over one row's fields. */
  method DrawCells(row: seq<TextSpan>, cells: seq<Rect>, offsetX: nat, offsetY: nat, highlightStyle: Option<Style>)
    returns (draws: seq<Draw>)
    requires |row| == |cells|
    ensures draws == CellDraws(row, cells, offsetX, offsetY, highlightStyle)
  {
    ghost var n := RoomFrom(cells, offsetX, 0);
    draws := [];
    var i := 0;
    while i < |row|
      invariant i <= n
      invariant draws == CellDraws(row, cells, offsetX, offsetY, highlightStyle)[..i]
    {
      var pos := cells[i];
      var maxWidth := SatSub(pos.width, offsetX);
      if maxWidth == 0 {
        break;
      }
      var style := if highlightStyle.Some? then highlightStyle.value else row[i].style;
      draws := draws + [SetStringN(offsetX + pos.x, offsetY + pos.y, row[i].content, maxWidth, style)];
      i := i + 1;
    }
    assert draws == CellDraws(row, cells, offsetX, offsetY, highlightStyle)[..n];
  }

  /** One row: the highlight symbol when the row is selected and there is one, then the fields. */
  method DrawRow(t: SimpleTable, cells: seq<Rect>, row: seq<TextSpan>, rowIndex: nat, itemOffset: nat, area: Rect,
                 offsetX: nat, offsetY: nat) returns (draws: seq<Draw>)
    requires |row| == |cells|
    requires offsetX == HighlightWidth(t) && offsetY == HeaderRows(t) + rowIndex
    ensures draws == RowDraws(t, cells, row, rowIndex, itemOffset, area)
  {
    var isSelected := t.selected.Some? && rowIndex == SatSub(t.selected.value, itemOffset);
    var highlightStyle := None;
    draws := [];
    if isSelected && t.highlight.Some? {
      draws := [SetSpan(area.x, offsetY + area.y, t.highlight.value.symbol, t.highlight.value.width)];
      highlightStyle := Some(t.highlight.value.symbol.style);
    }
    var cellDraws := DrawCells(row, cells, offsetX, offsetY, highlightStyle);
    draws := draws + cellDraws;
  }

  /** The row loop: rows after the skip, until one falls below the area or has the wrong field count. */
  method DrawRows(t: SimpleTable, cells: seq<Rect>, rows: seq<seq<TextSpan>>, itemOffset: nat, area: Rect,
                  offsetX: nat, headerOffset: nat) returns (draws: seq<Draw>)
    requires offsetX == HighlightWidth(t) && headerOffset == HeaderRows(t)
    ensures ShownFrom(rows, |cells|, headerOffset, area.height, 0) <= |rows|
    ensures draws == RowsDraws(t, cells, rows, itemOffset, area, ShownFrom(rows, |cells|, headerOffset, area.height, 0))
  {
    ghost var k := ShownFrom(rows, |cells|, headerOffset, area.height, 0);
    draws := [];
    var offsetY := headerOffset;
    var rowIndex: nat := 0;
    while rowIndex < |rows|
      invariant rowIndex <= k
      invariant offsetY == headerOffset + rowIndex
      invariant draws == RowsDraws(t, cells, rows, itemOffset, area, rowIndex)
    {
      var row := rows[rowIndex];
      if rowIndex + headerOffset >= area.height || |cells| != |row| {
        break;
      }
      var rowDraws := DrawRow(t, cells, row, rowIndex, itemOffset, area, offsetX, offsetY);
      draws := draws + rowDraws;
      offsetY := offsetY + 1;
      rowIndex := rowIndex + 1;
    }
    assert rowIndex == k;
  }

  /** `render`: the header, then the visible rows. */
  method Render(t: SimpleTable, area: Rect) returns (draws: seq<Draw>)
    requires Fits(t, area)
    ensures draws == RenderSpec(t, area)
    ensures area.IsEmpty() ==> draws == []
    ensures t.header.Some? && |t.header.value| != |t.layout| ==> draws == []
  {
    if area.width == 0 || area.height == 0 {
      return [];
    }
    var cells := Layout.Split(Layout.New(Horizontal), area, t.layout);
    draws := DrawTable(t, area, cells);
  }

  /** The part of `render` after the column split: the header, then the rows. */
  method DrawTable(t: SimpleTable, area: Rect, cells: seq<Rect>) returns (draws: seq<Draw>)
    requires Fits(t, area) && !area.IsEmpty() && cells == Columns(t, area)
    ensures draws == RenderSpec(t, area)
  {
    var offsetX := if t.highlight.Some? then t.highlight.value.width else 0;

    draws := [];
    var headerOffset: nat := 0;
    match t.header {
      case Some(columns) => {
        if |cells| != |columns| {
          return [];
        }
        draws := DrawHeader(columns, cells, offsetX);
        headerOffset := 1;
      }
      case None => {}
    }

    var itemOffset: nat := 0;
    if t.selected.Some? && t.selected.value >= SatSub(area.height, headerOffset) {
      assert headerOffset == HeaderRows(t) && t.selected.value + 1 <= U16_MAX;
      itemOffset := headerOffset + SatSub(t.selected.value + 1, area.height);
    }

    assert headerOffset == HeaderRows(t) && offsetX == HighlightWidth(t);
    assert draws == if t.header.Some? then HeaderDraws(t.header.value, cells, offsetX) else [];
    assert itemOffset == ItemOffset(t.selected, area.height, headerOffset);

    var rows := if itemOffset <= |t.data| then t.data[itemOffset..] else [];
    assert rows == Skip(t.data, itemOffset);
    var rowDraws := DrawRows(t, cells, rows, itemOffset, area, offsetX, headerOffset);
    draws := draws + rowDraws;
  }

  /// Properties

  /** A column of the split lies on the area's rows and within its horizontal extent. */
  predicate ColumnIn(cell: Rect, area: Rect)
  {
    cell.y == area.y && cell.height == area.height && area.x <= cell.x && cell.Right() <= area.Right()
  }

  /** Every column of the horizontal split spans the area's rows and stays inside it horizontally. */
  lemma ColumnsInArea(t: SimpleTable, area: Rect)
    requires Layout.SplitFits(Layout.New(Horizontal), area, t.layout)
    ensures |Columns(t, area)| == |t.layout|
    ensures forall i | 0 <= i < |Columns(t, area)| :: ColumnIn(Columns(t, area)[i], area)
  {
    Layout.SplitRectsPartition(Layout.New(Horizontal), area, t.layout);
  }

  /** The number of rows drawn never exceeds the rows left after the skip, nor the rows below the header. */
  lemma ShownRowsBound(rows: seq<seq<TextSpan>>, n: nat, headerRows: nat, height: nat)
    requires headerRows <= height
    ensures ShownFrom(rows, n, headerRows, height, 0) <= |rows|
    ensures ShownFrom(rows, n, headerRows, height, 0) + headerRows <= height
  {
    var k := ShownFrom(rows, n, headerRows, height, 0);
    if k > 0 {
      assert |rows[k - 1]| == n && k - 1 + headerRows < height;
    }
  }

  /** One row's writes: the highlight at the area's left edge, the fields inside their columns, all on the row's line. */
  lemma RowDrawsOnRow(t: SimpleTable, cells: seq<Rect>, row: seq<TextSpan>, rowIndex: nat, itemOffset: nat, area: Rect)
    requires |row| == |cells| && !area.IsEmpty()
    requires forall i | 0 <= i < |cells| :: ColumnIn(cells[i], area)
    ensures forall d | d in RowDraws(t, cells, row, rowIndex, itemOffset, area) ::
              area.x <= d.x < area.Right() && d.y == area.y + HeaderRows(t) + rowIndex
  {
    var highlighted := IsSelected(t.selected, rowIndex, itemOffset) && t.highlight.Some?;
    var cellDraws := CellDraws(row, cells, HighlightWidth(t), HeaderRows(t) + rowIndex,
                               if highlighted then Some(t.highlight.value.symbol.style) else None);
    assert forall i | 0 <= i < |cellDraws| :: area.x <= cellDraws[i].x < area.Right() && cellDraws[i].y == area.y + HeaderRows(t) + rowIndex;
  }

  /** The rows drawn so far stay inside the area, each on its own line below the header. */
  lemma {:induction false} RowsDrawsWithin(t: SimpleTable, cells: seq<Rect>, rows: seq<seq<TextSpan>>, itemOffset: nat, area: Rect, k: nat)
    requires k <= |rows| && forall i | 0 <= i < k :: |rows[i]| == |cells|
    requires !area.IsEmpty() && forall i | 0 <= i < |cells| :: ColumnIn(cells[i], area)
    ensures forall d | d in RowsDraws(t, cells, rows, itemOffset, area, k) ::
              area.x <= d.x < area.Right() && area.y + HeaderRows(t) <= d.y < area.y + HeaderRows(t) + k
  {
    if k > 0 {
      RowsDrawsWithin(t, cells, rows, itemOffset, area, k - 1);
      RowDrawsOnRow(t, cells, rows[k - 1], k - 1, itemOffset, area);
    }
  }

  /**
   * Every write of `render` starts inside the area: the header on its first
   * line, data row `r` on line `headerRows + r`, and no more rows than fit
   * below the header.
   */
  lemma RenderWithinArea(t: SimpleTable, area: Rect)
    requires Fits(t, area)
    ensures forall d | d in RenderSpec(t, area) :: area.x <= d.x < area.Right() && area.y <= d.y < area.Bottom()
  {
    if !area.IsEmpty() {
      var cells := Columns(t, area);
      ColumnsInArea(t, area);
      if !(t.header.Some? && |t.header.value| != |cells|) {
        var itemOffset := ItemOffset(t.selected, area.height, HeaderRows(t));
        var rows := Skip(t.data, itemOffset);
        var k := ShownFrom(rows, |cells|, HeaderRows(t), area.height, 0);
        ShownRowsBound(rows, |cells|, HeaderRows(t), area.height);
        RowsDrawsWithin(t, cells, rows, itemOffset, area, k);
        if t.header.Some? {
          var header := HeaderDraws(t.header.value, cells, HighlightWidth(t));
          assert forall i | 0 <= i < |header| :: area.x <= header[i].x < area.Right() && header[i].y == area.y;
        }
      }
    }
  }

  /**
   * The header: column `i` is written on the area's first line at its
   * column's x plus the highlight width, with the column's width less the
   * highlight width as its limit, and the writes stop at the first column
   * with no room left.
   */
  lemma HeaderPlacement(t: SimpleTable, area: Rect)
    requires Fits(t, area) && !area.IsEmpty()
    requires t.header.Some? && |t.header.value| == |t.layout|
    ensures var cells, w := Columns(t, area), HighlightWidth(t);
            var header := HeaderDraws(t.header.value, cells, w);
            && header <= RenderSpec(t, area)
            && |header| <= |cells|
            && (forall i | 0 <= i < |header| ::
                  header[i] == SetSpan(w + cells[i].x, area.y, t.header.value[i], cells[i].width - w) && cells[i].width > w)
            && (|header| < |cells| ==> cells[|header|].width <= w)
  {
    ColumnsInArea(t, area);
  }

  /**
   * The selected row, and only it, gets the highlight: the symbol at the
   * area's left edge first, then fields in the symbol's style; every other
   * row's fields keep their own styles.
   */
  lemma RowHighlight(t: SimpleTable, cells: seq<Rect>, row: seq<TextSpan>, rowIndex: nat, itemOffset: nat, area: Rect)
    requires |row| == |cells|
    ensures var ds := RowDraws(t, cells, row, rowIndex, itemOffset, area);
            IsSelected(t.selected, rowIndex, itemOffset) && t.highlight.Some? ==>
              && |ds| >= 1
              && ds[0] == SetSpan(area.x, area.y + HeaderRows(t) + rowIndex, t.highlight.value.symbol, t.highlight.value.width)
              && forall i | 1 <= i < |ds| :: ds[i].SetStringN? && ds[i].style == t.highlight.value.symbol.style
    ensures var ds := RowDraws(t, cells, row, rowIndex, itemOffset, area);
            !(IsSelected(t.selected, rowIndex, itemOffset) && t.highlight.Some?) ==>
              forall i | 0 <= i < |ds| :: ds[i].SetStringN? && ds[i].style == row[i].style
  {
  }

  /** A selection at 10 of 20 rows, six lines with a header: rows 7 to 11 are shown, the last one selected. */
  lemma ScrollingEdgeSelection(data: seq<seq<TextSpan>>)
    requires |data| == 20 && forall i | 0 <= i < 20 :: |data[i]| == 2
    ensures ItemOffset(Some(10), 6, 1) == 6
    ensures ShownFrom(Skip(data, 6), 2, 1, 6, 0) == 5
    ensures IsSelected(Some(10), 4, 6) && forall r | 0 <= r < 4 :: !IsSelected(Some(10), r, 6)
  {
    var rows := Skip(data, 6);
    assert |rows| == 14 && forall i | 0 <= i < 14 :: |rows[i]| == 2;
    assert ShownFrom(rows, 2, 1, 6, 5) == 5;
    assert ShownFrom(rows, 2, 1, 6, 3) == 5;
    assert ShownFrom(rows, 2, 1, 6, 1) == 5;
  }

  /** A selection at 21 of 20 rows: the last three rows are shown and none of them is highlighted. */
  lemma OverflowSelection(data: seq<seq<TextSpan>>)
    requires |data| == 20 && forall i | 0 <= i < 20 :: |data[i]| == 2
    ensures ItemOffset(Some(21), 6, 1) == 17
    ensures Skip(data, 17) == data[17..]
    ensures ShownFrom(Skip(data, 17), 2, 1, 6, 0) == 3
    ensures forall r | 0 <= r < 3 :: !IsSelected(Some(21), r, 17)
  {
    var rows := Skip(data, 17);
    assert |rows| == 3 && forall i | 0 <= i < 3 :: |rows[i]| == 2;
    assert ShownFrom(rows, 2, 1, 6, 3) == 3;
  }

  /** The sizes the basic example's constraints resolve to. */
  lemma BasicSizes(cs: seq<Layout.BasicConstraint>)
    requires cs == [Layout.Length(6), Layout.Length(6)]
    ensures Layout.Resolvable(cs, 12, 0) && Layout.Sizes(cs, 12, 0) == [6, 6]
  {
    assert cs[1..] == [Layout.Length(6)] && cs[1..][1..] == [];
    assert Layout.Capped(cs[0], 12, 0) == 6;
    assert Layout.Capped(cs[1], 12, 6) == 6;
    assert Layout.Resolvable(cs[1..][1..], 12, 12);
    assert Layout.Resolvable(cs[1..], 12, 6);
    assert Layout.Sizes(cs[1..][1..], 12, 12) == [];
    assert Layout.Sizes(cs[1..], 12, 6) == [6];
  }

  /** The basic example's split stays within `u16`. */
  lemma BasicSplitFits(cs: seq<Layout.BasicConstraint>, area: Rect)
    requires cs == [Layout.Length(6), Layout.Length(6)] && area == Rect(0, 0, 12, 5)
    ensures Layout.SplitFits(Layout.New(Horizontal), area, cs)
  {
    BasicSizes(cs);
    assert Layout.GetPadded(Layout.New(Horizontal), area) == area;
    var sizes := Layout.Sizes(cs, 12, 0);
    assert sizes[..0] == [] && sizes[..1] == [6];
    assert Layout.Sum([6]) == 6 by {
      assert [6][1..] == [];
    }
  }

  /** The two-column split of the basic example: two 6-wide columns over all five lines. */
  lemma BasicColumns(t: SimpleTable, area: Rect)
    requires t.layout == [Layout.Length(6), Layout.Length(6)] && area == Rect(0, 0, 12, 5)
    ensures Layout.SplitFits(Layout.New(Horizontal), area, t.layout)
    ensures Columns(t, area) == [Rect(0, 0, 6, 5), Rect(6, 0, 6, 5)]
  {
    BasicSplitFits(t.layout, area);
    BasicSizes(t.layout);
    var sizes := Layout.Sizes(t.layout, 12, 0);
    assert sizes[..0] == [] && sizes[..1] == [6];
    assert Layout.Sum([6]) == 6 by {
      assert [6][1..] == [];
    }
    assert Layout.GetPadded(Layout.New(Horizontal), area) == area;
  }

  /** One row of the basic example. */
  lemma BasicRow(t: SimpleTable, cells: seq<Rect>, data: seq<seq<TextSpan>>, r: nat, area: Rect)
    requires t.selected == None && t.highlight == None && t.header == None
    requires r < |data| && |data[r]| == 2 && cells == [Rect(0, 0, 6, 5), Rect(6, 0, 6, 5)]
    ensures RowDraws(t, cells, data[r], r, 0, area) == [BasicCell(data, r, 0), BasicCell(data, r, 1)]
  {
    assert RoomFrom(cells, 0, 2) == 2;
    assert RoomFrom(cells, 0, 0) == 2;
  }

  /** The writes the basic example expects for field `c` of row `r`. */
  function BasicCell(data: seq<seq<TextSpan>>, r: nat, c: nat): Draw
    requires r < |data| && c < |data[r]|
  {
    SetStringN(6 * c, r, data[r][c].content, 6, data[r][c].style)
  }

  /** All five rows of the basic example fit. */
  lemma BasicShown(data: seq<seq<TextSpan>>)
    requires |data| == 5 && forall i | 0 <= i < 5 :: |data[i]| == 2
    ensures ShownFrom(data, 2, 0, 5, 0) == 5
  {
    assert ShownFrom(data, 2, 0, 5, 3) == 5;
  }

  /** What the basic example expects: each row's left field, then its right field, row by row. */
  function BasicExpected(data: seq<seq<TextSpan>>): seq<Draw>
    requires |data| == 5 && forall i | 0 <= i < 5 :: |data[i]| == 2
  {
    [BasicCell(data, 0, 0), BasicCell(data, 0, 1), BasicCell(data, 1, 0), BasicCell(data, 1, 1),
     BasicCell(data, 2, 0), BasicCell(data, 2, 1), BasicCell(data, 3, 0), BasicCell(data, 3, 1),
     BasicCell(data, 4, 0), BasicCell(data, 4, 1)]
  }

  /** The five rows of the basic example, in order. */
  lemma BasicRows(t: SimpleTable, cells: seq<Rect>, data: seq<seq<TextSpan>>, area: Rect)
    requires t.selected == None && t.highlight == None && t.header == None
    requires |data| == 5 && forall i | 0 <= i < 5 :: |data[i]| == 2
    requires cells == [Rect(0, 0, 6, 5), Rect(6, 0, 6, 5)]
    ensures RowsDraws(t, cells, data, 0, area, 5) == BasicExpected(data)
  {
    forall r | 0 <= r < 5
      ensures RowDraws(t, cells, data[r], r, 0, area) == [BasicCell(data, r, 0), BasicCell(data, r, 1)]
    {
      BasicRow(t, cells, data, r, area);
    }
    assert RowsDraws(t, cells, data, 0, area, 1) == [BasicCell(data, 0, 0), BasicCell(data, 0, 1)];
    assert RowsDraws(t, cells, data, 0, area, 2) == [BasicCell(data, 0, 0), BasicCell(data, 0, 1), BasicCell(data, 1, 0), BasicCell(data, 1, 1)];
    assert RowsDraws(t, cells, data, 0, area, 3) ==
           [BasicCell(data, 0, 0), BasicCell(data, 0, 1), BasicCell(data, 1, 0), BasicCell(data, 1, 1),
            BasicCell(data, 2, 0), BasicCell(data, 2, 1)];
    assert RowsDraws(t, cells, data, 0, area, 4) ==
           [BasicCell(data, 0, 0), BasicCell(data, 0, 1), BasicCell(data, 1, 0), BasicCell(data, 1, 1),
            BasicCell(data, 2, 0), BasicCell(data, 2, 1), BasicCell(data, 3, 0), BasicCell(data, 3, 1)];
  }

  /**
   * Five two-field rows, two columns of length 6, a 12 by 5 area and no
   * header: row `r` writes its left field at (0, r) and its right field at
   * (6, r), both limited to 6 cells, in their own styles.
   */
  lemma BasicMultiline(t: SimpleTable, area: Rect)
    requires t == SimpleTable(t.data, [Layout.Length(6), Layout.Length(6)], None, None, None)
    requires |t.data| == 5 && forall i | 0 <= i < 5 :: |t.data[i]| == 2
    requires area == Rect(0, 0, 12, 5)
    ensures Fits(t, area) && RenderSpec(t, area) == BasicExpected(t.data)
  {
    BasicColumns(t, area);
    var cells := Columns(t, area);
    BasicShown(t.data);
    BasicRows(t, cells, t.data, area);
    assert Skip(t.data, 0) == t.data;
  }
}
