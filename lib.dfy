/** The crate-root helpers (src/lib.rs): alignment offsets, rectangle padding, grid cells and area filling. */
module Lib {
  import opened Tui
  import Layout

  /**
   * `alignment_offset`: where an item of `itemLen` cells starts inside a run of
   * `totalLen` cells. An item that fits stays inside, flush left, flush right,
   * or centred with the two gaps differing by at most one cell; one that does
   * not fit starts at 0. Centring halves both lengths before subtracting, so
   * the odd cell left over goes to the right-hand gap, except when only the
   * item's length is odd: then it goes to the left-hand gap.
   */
  function AlignmentOffset(alignment: Alignment, totalLen: nat, itemLen: nat): (r: nat)
    ensures r <= totalLen
    ensures itemLen <= totalLen ==> r + itemLen <= totalLen
    ensures itemLen > totalLen ==> r == 0
    ensures alignment == Left ==> r == 0
    ensures alignment == Right && itemLen <= totalLen ==> r + itemLen == totalLen
    ensures alignment == Center && itemLen <= totalLen ==>
              r <= (totalLen - itemLen - r) + 1 && (totalLen - itemLen - r) <= r + 1
    ensures alignment == Center && itemLen <= totalLen && totalLen % 2 >= itemLen % 2 ==>
              r == (totalLen - itemLen) / 2
    ensures alignment == Center && itemLen <= totalLen && totalLen % 2 < itemLen % 2 ==>
              r == (totalLen - itemLen + 1) / 2
  {
    match alignment
    case Left => 0
    case Center => SatSub(totalLen / 2, itemLen / 2)
    case Right => SatSub(totalLen, itemLen)
  }

  /** `pad_rect_horiz`: moves x in by the padding and takes twice the padding off the width, saturating. */
  function PadRectHoriz(rect: Rect, padding: nat): (r: Rect)
    requires rect.x + padding <= U16_MAX && padding * 2 <= U16_MAX
    ensures r.y == rect.y && r.height == rect.height
    ensures r.x == rect.x + padding && r.width == SatSub(rect.width, 2 * padding)
    ensures 2 * padding <= rect.width ==> r.Right() + padding == rect.Right()
  {
    Rect(rect.x + padding, rect.y, SatSub(rect.width, padding * 2), rect.height)
  }

  /** `pad_rect_left`: moves x in by the padding and takes the padding off the width, saturating. */
  function PadRectLeft(rect: Rect, padding: nat): (r: Rect)
    requires rect.x + padding <= U16_MAX
    ensures r.y == rect.y && r.height == rect.height
    ensures r.x == rect.x + padding && r.width == SatSub(rect.width, padding)
    ensures padding <= rect.width ==> r.Right() == rect.Right()
  {
    Rect(rect.x + padding, rect.y, SatSub(rect.width, padding), rect.height)
  }

  /**
   * `grid_pos`: the cell of size `dimensions.width` x `dimensions.height` at
   * column `dimensions.x` and row `dimensions.y` of a grid anchored at `container`.
   */
  function GridPos(dimensions: Rect, container: Rect): (r: Rect)
    requires container.x + dimensions.width * dimensions.x <= U16_MAX
    requires container.y + dimensions.height * dimensions.y <= U16_MAX
    ensures r.width == dimensions.width && r.height == dimensions.height
    ensures r.x == container.x + dimensions.width * dimensions.x
    ensures r.y == container.y + dimensions.height * dimensions.y
  {
    Rect(container.x + dimensions.width * dimensions.x,
         container.y + dimensions.height * dimensions.y,
         dimensions.width, dimensions.height)
  }

  /** The crate-root copies of the padding and grid helpers agree with the `RectExt` ones. */
  lemma DuplicatesAgree(rect: Rect, padding: nat, dimensions: Rect)
    requires rect.x + padding <= U16_MAX && padding * 2 <= U16_MAX
    requires rect.x + dimensions.width * dimensions.x <= U16_MAX
    requires rect.y + dimensions.height * dimensions.y <= U16_MAX
    ensures PadRectHoriz(rect, padding) == Layout.PadHoriz(rect, padding)
    ensures PadRectLeft(rect, padding) == Layout.PadLeft(rect, padding)
    ensures GridPos(dimensions, rect) == Layout.GridPos(rect, dimensions)
  {
  }

  predicate InArea(area: Rect, x: nat, y: nat)
  {
    area.x <= x < area.Right() && area.y <= y < area.Bottom()
  }

  /**
   * `fill_area`: applies `func` once to every cell inside `area` and leaves
   * every other cell alone. The buffer is indexed by absolute `[x, y]`
   * coordinates and must contain the area, as `Buffer::get_mut` demands.
   */
  method FillArea<Cell>(area: Rect, buf: array2<Cell>, func: Cell -> Cell)
    requires area.Right() <= buf.Length0 && area.Bottom() <= buf.Length1
    modifies buf
    ensures forall i, j | 0 <= i < buf.Length0 && 0 <= j < buf.Length1 ::
              buf[i, j] == if InArea(area, i, j) then func(old(buf[i, j])) else old(buf[i, j])
  {
    for x := 0 to area.width
      invariant forall i, j | 0 <= i < buf.Length0 && 0 <= j < buf.Length1 ::
                  buf[i, j] == if area.x <= i < area.x + x && area.y <= j < area.Bottom()
                               then func(old(buf[i, j])) else old(buf[i, j])
    {
      for y := 0 to area.height
        invariant forall i, j | 0 <= i < buf.Length0 && 0 <= j < buf.Length1 ::
                    buf[i, j] == if (area.x <= i < area.x + x && area.y <= j < area.Bottom()) ||
                                    (i == area.x + x && area.y <= j < area.y + y)
                                 then func(old(buf[i, j])) else old(buf[i, j])
      {
        buf[area.x + x, area.y + y] := func(buf[area.x + x, area.y + y]);
      }
    }
  }
}
