/**
 * Splitting a rectangle along one axis by a list of simple constraints, the
 * fixed even splits, and the rectangle transforms of `RectExt` (src/layout.rs).
 * Every `+` and `*` the source performs unchecked on `u16` carries a
 * precondition that it stays within 65535.
 */
module Layout {
  import opened Tui

  /** The layout configuration: the split axis and the margins applied once before splitting. */
  datatype SimpleLayout = SimpleLayout(direction: Direction, marginX: nat, marginY: nat)

  /** `SimpleLayout::new`: the given direction, no margins. */
  function New(direction: Direction): (r: SimpleLayout)
    ensures r.direction == direction && r.marginX == 0 && r.marginY == 0
  {
    SimpleLayout(direction, 0, 0)
  }

  datatype BasicConstraint =
    | Length(len: nat)
    | Percentage(pcnt: nat)
    | MinLenGrowthPcnt(min: nat, pcnt: nat)
    | MinLenRemaining(min: nat, remaining: nat)

  /** A position and a size on one axis. */
  datatype GenericRect = GenericRect(pos: nat, size: nat)

  function Other(dir: Direction): Direction
  {
    match dir
    case Horizontal => Vertical
    case Vertical => Horizontal
  }

  /** The extent of `area` along the axis `dir`. */
  function FromDir(dir: Direction, area: Rect): GenericRect
  {
    match dir
    case Horizontal => GenericRect(area.x, area.width)
    case Vertical => GenericRect(area.y, area.height)
  }

  /** `area` with its extent along `dir` replaced by `g`. */
  function AsRect(g: GenericRect, dir: Direction, area: Rect): (r: Rect)
    ensures FromDir(dir, r) == g
    ensures FromDir(Other(dir), r) == FromDir(Other(dir), area)
  {
    match dir
    case Horizontal => area.(x := g.pos, width := g.size)
    case Vertical => area.(y := g.pos, height := g.size)
  }

  /// Percentages

  lemma DivByHundred(k: nat, r: nat)
    requires r < 100
    ensures (100 * k + r) / 100 == k
  {
  }

  /**
   * `fast_rounded_percentage`: `pcnt` percent of `value` rounded to the
   * nearest integer, halves rounded up, without floating point.
   */
  function FastRoundedPercentage(value: nat, pcnt: nat): (r: nat)
    requires value * pcnt <= U16_MAX
    ensures r == (value * pcnt + 50) / 100
    ensures 100 * r <= value * pcnt + 50 < 100 * r + 100
    ensures pcnt <= 100 ==> r <= value
  {
    var mult := value * pcnt;
    var decimal := mult / 10;
    var roundRemainder := if decimal % 10 >= 5 then 1 else 0;
    var result := decimal / 10;
    HalfUp(mult);
    PercentAtMostWhole(value, pcnt, result + roundRemainder);
    result + roundRemainder
  }

  /** A rounded share of at most 100% is at most the whole. */
  lemma PercentAtMostWhole(value: nat, pcnt: nat, r: nat)
    requires 100 * r <= value * pcnt + 50
    ensures pcnt <= 100 ==> r <= value
  {
    if pcnt <= 100 {
      MulMonotone(value, pcnt, 100);
    }
  }

  lemma MulMonotone(a: nat, b: nat, c: nat)
    requires b <= c
    ensures a * b <= a * c
  {
  }

  lemma HalfUp(m: nat)
    ensures m / 10 / 10 + (if m / 10 % 10 >= 5 then 1 else 0) == (m + 50) / 100
    ensures 100 * ((m + 50) / 100) <= m + 50 < 100 * ((m + 50) / 100) + 100
  {
    var d, a := m / 10, m % 10;
    var q, b := d / 10, d % 10;
    assert m == 100 * q + 10 * b + a;
    if b >= 5 {
      assert m + 50 == 100 * (q + 1) + (10 * (b - 5) + a);
      DivByHundred(q + 1, 10 * (b - 5) + a);
    } else {
      assert m + 50 == 100 * q + (10 * b + a + 50);
      DivByHundred(q, 10 * b + a + 50);
    }
  }

  lemma {:induction false} PercentageExamples()
    ensures FastRoundedPercentage(10, 50) == 5
    ensures FastRoundedPercentage(10, 33) == 3
    ensures FastRoundedPercentage(10, 25) == 3
    ensures FastRoundedPercentage(24, 50) == 12
  {
  }

  /// Rectangle transforms (`RectExt`)

  predicate PadFits(rect: Rect, paddingX: nat, paddingY: nat)
  {
    rect.x + paddingX <= U16_MAX && rect.y + paddingY <= U16_MAX &&
    paddingX * 2 <= U16_MAX && paddingY * 2 <= U16_MAX
  }

  /** `pad`: moves the origin in by the padding and takes twice the padding off each size, saturating. */
  function Pad(rect: Rect, paddingX: nat, paddingY: nat): (r: Rect)
    requires PadFits(rect, paddingX, paddingY)
    ensures r.x == rect.x + paddingX && r.y == rect.y + paddingY
    ensures r.width == SatSub(rect.width, 2 * paddingX)
    ensures r.height == SatSub(rect.height, 2 * paddingY)
    ensures 2 * paddingX <= rect.width ==> r.Right() + paddingX == rect.Right()
    ensures 2 * paddingY <= rect.height ==> r.Bottom() + paddingY == rect.Bottom()
  {
    Rect(rect.x + paddingX, rect.y + paddingY,
         SatSub(rect.width, paddingX * 2), SatSub(rect.height, paddingY * 2))
  }

  /** `pad_horiz`: `pad` on the x axis only. */
  function PadHoriz(rect: Rect, padding: nat): (r: Rect)
    requires rect.x + padding <= U16_MAX && padding * 2 <= U16_MAX
    ensures r.y == rect.y && r.height == rect.height
    ensures r.x == rect.x + padding && r.width == SatSub(rect.width, 2 * padding)
    ensures 2 * padding <= rect.width ==> r.Right() + padding == rect.Right()
  {
    rect.(x := rect.x + padding, width := SatSub(rect.width, padding * 2))
  }

  /** `pad_left`: moves the left edge in by the padding, keeping the right edge when the padding fits. */
  function PadLeft(rect: Rect, padding: nat): (r: Rect)
    requires rect.x + padding <= U16_MAX
    ensures r.y == rect.y && r.height == rect.height
    ensures r.x == rect.x + padding && r.width == SatSub(rect.width, padding)
    ensures padding <= rect.width ==> r.Right() == rect.Right()
  {
    rect.(x := rect.x + padding, width := SatSub(rect.width, padding))
  }

  /** `pad_vert`: `pad` on the y axis only. */
  function PadVert(rect: Rect, padding: nat): (r: Rect)
    requires rect.y + padding <= U16_MAX && padding * 2 <= U16_MAX
    ensures r.x == rect.x && r.width == rect.width
    ensures r.y == rect.y + padding && r.height == SatSub(rect.height, 2 * padding)
    ensures 2 * padding <= rect.height ==> r.Bottom() + padding == rect.Bottom()
  {
    rect.(y := rect.y + padding, height := SatSub(rect.height, padding * 2))
  }

  /** `lines_from_top`: the top rows of `rect`, at most `lines` of them. */
  function LinesFromTop(rect: Rect, lines: nat): (r: Rect)
    ensures r.x == rect.x && r.y == rect.y && r.width == rect.width
    ensures r.height <= lines && r.height <= rect.height
    ensures r.height == lines || r.height == rect.height
  {
    rect.(height := Min(lines, rect.height))
  }

  /**
   * `lines_from_bottom` as written: the top edge sits `lines` rows above the
   * bottom, but the height is `min(lines, height - lines)`, so the result is
   * only the bottom `lines` rows when `2 * lines <= height`.
   */
  function LinesFromBottom(rect: Rect, lines: nat): (r: Rect)
    requires rect.y + SatSub(rect.height, lines) <= U16_MAX
    ensures r.x == rect.x && r.width == rect.width
    ensures rect.y <= r.y && r.Bottom() <= rect.Bottom()
    ensures lines <= rect.height ==> r.y + lines == rect.Bottom()
    ensures 2 * lines <= rect.height ==> r.height == lines
    ensures 2 * lines > rect.height ==> r.height < lines
  {
    var maxHeight := SatSub(rect.height, lines);
    rect.(y := rect.y + maxHeight, height := Min(lines, maxHeight))
  }

  /** A 4-row rect asked for its bottom 3 rows gets only one row. */
  lemma LinesFromBottomShortfall()
    ensures LinesFromBottom(Rect(0, 0, 10, 4), 3) == Rect(0, 1, 10, 1)
  {
  }

  /** What `lines_from_bottom` is documented to return: the bottom `min(lines, height)` rows. */
  function LinesFromBottomIntended(rect: Rect, lines: nat): (r: Rect)
    requires rect.y + SatSub(rect.height, lines) <= U16_MAX
    ensures r.x == rect.x && r.width == rect.width
    ensures r.Bottom() == rect.Bottom() && rect.y <= r.y
    ensures r.height == lines || r.height == rect.height
    ensures r.height <= lines
  {
    var maxHeight := SatSub(rect.height, lines);
    rect.(y := rect.y + maxHeight, height := Min(lines, rect.height))
  }

  /**
   * `grid_pos`: the cell of size `dimensions.width` x `dimensions.height` at
   * column `dimensions.x` and row `dimensions.y` of a grid anchored at `rect`.
   */
  function GridPos(rect: Rect, dimensions: Rect): (r: Rect)
    requires rect.x + dimensions.width * dimensions.x <= U16_MAX
    requires rect.y + dimensions.height * dimensions.y <= U16_MAX
    ensures r.width == dimensions.width && r.height == dimensions.height
    ensures r.x == rect.x + dimensions.width * dimensions.x
    ensures r.y == rect.y + dimensions.height * dimensions.y
  {
    Rect(rect.x + dimensions.width * dimensions.x,
         rect.y + dimensions.height * dimensions.y,
         dimensions.width, dimensions.height)
  }

  /** Neighbouring grid cells touch: column `c + 1` starts where column `c` ends, and likewise rows. */
  lemma GridPosAdjacent(rect: Rect, dimensions: Rect)
    requires rect.x + dimensions.width * (dimensions.x + 1) <= U16_MAX
    requires rect.y + dimensions.height * (dimensions.y + 1) <= U16_MAX
    ensures GridPos(rect, dimensions.(x := dimensions.x + 1)).x == GridPos(rect, dimensions).Right()
    ensures GridPos(rect, dimensions.(y := dimensions.y + 1)).y == GridPos(rect, dimensions).Bottom()
  {
    assert dimensions.width * (dimensions.x + 1) == dimensions.width * dimensions.x + dimensions.width;
    assert dimensions.height * (dimensions.y + 1) == dimensions.height * dimensions.y + dimensions.height;
  }

  /// Fixed splits

  /** `get_padded`: the area padded by the layout's margins on each side; with no margins, the area itself. */
  function GetPadded(layout: SimpleLayout, area: Rect): (r: Rect)
    requires PadFits(area, layout.marginX, layout.marginY)
    ensures r.x == area.x + layout.marginX && r.y == area.y + layout.marginY
    ensures r.width == SatSub(area.width, 2 * layout.marginX) && r.height == SatSub(area.height, 2 * layout.marginY)
    ensures layout.marginX == 0 && layout.marginY == 0 ==> r == area
  {
    Pad(area, layout.marginX, layout.marginY)
  }

  datatype EvenSplit = EvenSplit(left: Rect, right: Rect)

  /** `split_evenly`: two cells of half the padded size each, the second right after the first. */
  function SplitEvenly(layout: SimpleLayout, area: Rect): (s: EvenSplit)
    requires PadFits(area, layout.marginX, layout.marginY)
    requires var g := FromDir(layout.direction, GetPadded(layout, area)); g.pos + g.size / 2 <= U16_MAX
    ensures var dir := layout.direction;
            var p := GetPadded(layout, area);
            var g, l, r := FromDir(dir, p), FromDir(dir, s.left), FromDir(dir, s.right);
            && l.pos == g.pos && r.pos == l.pos + l.size
            && l.size == r.size && l.size + r.size <= g.size < l.size + r.size + 2
            && FromDir(Other(dir), s.left) == FromDir(Other(dir), p)
            && FromDir(Other(dir), s.right) == FromDir(Other(dir), p)
  {
    var dir := layout.direction;
    var p := GetPadded(layout, area);
    var g := FromDir(dir, p);
    var halfSize := g.size / 2;
    EvenSplit(AsRect(g.(size := halfSize), dir, p), AsRect(GenericRect(g.pos + halfSize, halfSize), dir, p))
  }

  datatype QuarterSplit = QuarterSplit(first: Rect, second: Rect, third: Rect, fourth: Rect)

  /** `cell` is `area` with the extent `pos`, `size` on the axis `dir`. */
  predicate CellAt(cell: Rect, dir: Direction, area: Rect, pos: nat, size: nat)
  {
    FromDir(dir, cell) == GenericRect(pos, size) && FromDir(Other(dir), cell) == FromDir(Other(dir), area)
  }

  /** `split_quarters`: four cells of a quarter of the padded size each, side by side. */
  function SplitQuarters(layout: SimpleLayout, area: Rect): (s: QuarterSplit)
    requires PadFits(area, layout.marginX, layout.marginY)
    requires var g := FromDir(layout.direction, GetPadded(layout, area)); g.pos + 3 * (g.size / 4) <= U16_MAX
    ensures var dir, p := layout.direction, GetPadded(layout, area);
            var g := FromDir(dir, p);
            var q := g.size / 4;
            && CellAt(s.first, dir, p, g.pos, q)
            && CellAt(s.second, dir, p, g.pos + q, q)
            && CellAt(s.third, dir, p, g.pos + 2 * q, q)
            && CellAt(s.fourth, dir, p, g.pos + 3 * q, q)
            && 4 * q <= g.size < 4 * q + 4
  {
    var dir := layout.direction;
    var p := GetPadded(layout, area);
    var g := FromDir(dir, p);
    var quarterSize := g.size / 4;
    var quarter := (offset: nat) requires offset < 4 => AsRect(GenericRect(g.pos + quarterSize * offset, quarterSize), dir, p);
    QuarterSplit(quarter(0), quarter(1), quarter(2), quarter(3))
  }

  datatype QuadrantSplit = QuadrantSplit(topLeft: Rect, topRight: Rect, bottomLeft: Rect, bottomRight: Rect)

  /** `split_quadrants`: four cells of half the padded width and half its height, two by two. */
  function SplitQuadrants(layout: SimpleLayout, area: Rect): (s: QuadrantSplit)
    requires PadFits(area, layout.marginX, layout.marginY)
    requires var p := GetPadded(layout, area); p.x + p.width / 2 <= U16_MAX && p.y + p.height / 2 <= U16_MAX
    ensures var p := GetPadded(layout, area);
            && s.topLeft == Rect(p.x, p.y, p.width / 2, p.height / 2)
            && s.topRight == s.topLeft.(x := s.topLeft.Right())
            && s.bottomLeft == s.topLeft.(y := s.topLeft.Bottom())
            && s.bottomRight == s.topLeft.(x := s.topLeft.Right(), y := s.topLeft.Bottom())
            && s.bottomRight.Right() <= p.Right() && s.bottomRight.Bottom() <= p.Bottom()
  {
    var p := GetPadded(layout, area);
    var halfWidth, halfHeight := p.width / 2, p.height / 2;
    var halfSizeRect := (x: nat, y: nat) => Rect(x, y, halfWidth, halfHeight);
    QuadrantSplit(halfSizeRect(p.x, p.y), halfSizeRect(p.x + halfWidth, p.y),
                  halfSizeRect(p.x, p.y + halfHeight), halfSizeRect(p.x + halfWidth, p.y + halfHeight))
  }

  /// Constraint splitting

  function Sum(s: seq<nat>): nat
  {
    if s == [] then 0 else s[0] + Sum(s[1..])
  }

  lemma {:induction false} SumAppend(a: seq<nat>, b: seq<nat>)
    ensures Sum(a + b) == Sum(a) + Sum(b)
    decreases |a|
  {
    if a == [] {
      assert a + b == b;
    } else {
      assert (a + b)[1..] == a[1..] + b;
      SumAppend(a[1..], b);
    }
  }

  lemma SumPrefixStep(s: seq<nat>, i: nat)
    requires i < |s|
    ensures Sum(s[..i + 1]) == Sum(s[..i]) + s[i]
  {
    assert s[..i + 1] == s[..i] + [s[i]];
    SumAppend(s[..i], [s[i]]);
  }

  /** Whether resolving `c` stays within `u16` at the given running offset. */
  predicate ResolveFits(c: BasicConstraint, size: nat, offset: nat)
  {
    match c
    case Length(_) => true
    case Percentage(pcnt) => size * pcnt <= U16_MAX
    case MinLenGrowthPcnt(_, pcnt) => size * pcnt <= U16_MAX
    case MinLenRemaining(_, remaining) => offset + remaining <= U16_MAX
  }

  /** The size a constraint asks for, before the cap, seeing only the running offset. */
  function Resolve(c: BasicConstraint, size: nat, offset: nat): (r: nat)
    requires ResolveFits(c, size, offset)
    ensures c.Length? ==> r == c.len
    ensures c.Percentage? ==> r == (size * c.pcnt + 50) / 100
    ensures c.MinLenGrowthPcnt? ==> r == Max(c.min, (size * c.pcnt + 50) / 100)
    ensures c.MinLenRemaining? ==> r == Max(c.min, SatSub(size, offset + c.remaining))
  {
    match c
    case Length(len) => len
    case Percentage(pcnt) => FastRoundedPercentage(size, pcnt)
    case MinLenGrowthPcnt(min, pcnt) => Max(FastRoundedPercentage(size, pcnt), min)
    case MinLenRemaining(min, remaining) => Max(min, SatSub(size, offset + remaining))
  }

  /** The resolved size capped by what is left of the axis. */
  function Capped(c: BasicConstraint, size: nat, offset: nat): (r: nat)
    requires offset <= size && ResolveFits(c, size, offset)
    ensures offset + r <= size
    ensures r == Resolve(c, size, offset) || offset + r == size
  {
    Min(Resolve(c, size, offset), size - offset)
  }

  /** Every constraint, resolved left to right with its own running offset, stays within `u16`. */
  predicate Resolvable(cs: seq<BasicConstraint>, size: nat, offset: nat)
    requires offset <= size
    decreases |cs|
  {
    cs == [] ||
    (ResolveFits(cs[0], size, offset) && Resolvable(cs[1..], size, offset + Capped(cs[0], size, offset)))
  }

  /** The sizes `split` gives the constraints, left to right, each capped by the space left. */
  function Sizes(cs: seq<BasicConstraint>, size: nat, offset: nat): (r: seq<nat>)
    requires offset <= size && Resolvable(cs, size, offset)
    ensures |r| == |cs|
    ensures offset + Sum(r) <= size
    decreases |cs|
  {
    if cs == [] then []
    else
      var s := Capped(cs[0], size, offset);
      [s] + Sizes(cs[1..], size, offset + s)
  }

  /**
   * Every size is the constraint's resolution at the running offset (the
   * sum of the sizes before it), capped by the space left at that offset.
   */
  lemma {:induction false} SizesAreCappedResolutions(cs: seq<BasicConstraint>, size: nat, offset: nat, i: nat)
    requires offset <= size && Resolvable(cs, size, offset) && i < |cs|
    ensures var sizes := Sizes(cs, size, offset);
            var at := offset + Sum(sizes[..i]);
            at <= size && ResolveFits(cs[i], size, at) &&
            sizes[i] == Min(Resolve(cs[i], size, at), size - at)
    decreases i
  {
    var sizes := Sizes(cs, size, offset);
    if i > 0 {
      var s := Capped(cs[0], size, offset);
      SizesAreCappedResolutions(cs[1..], size, offset + s, i - 1);
      assert sizes[..i] == [s] + sizes[1..][..i - 1];
    }
  }

  /** The `u16` sums `split` performs fit: every resolution, and the position of every cell. */
  predicate SplitFits(layout: SimpleLayout, area: Rect, constraints: seq<BasicConstraint>)
  {
    && PadFits(area, layout.marginX, layout.marginY)
    && var g := FromDir(layout.direction, GetPadded(layout, area));
    && Resolvable(constraints, g.size, 0)
    && forall i | 0 <= i < |constraints| :: g.pos + Sum(Sizes(constraints, g.size, 0)[..i]) <= U16_MAX
  }

  /** The cells `split` produces, as a function of its inputs. */
  function SplitRects(layout: SimpleLayout, area: Rect, constraints: seq<BasicConstraint>): seq<Rect>
    requires SplitFits(layout, area, constraints)
  {
    seq(|constraints|, i requires 0 <= i < |constraints| => Cell(layout, area, constraints, i))
  }

  /** The cell of constraint `i`: at the padded origin plus the sizes before it, as large as the `i`-th size. */
  function Cell(layout: SimpleLayout, area: Rect, constraints: seq<BasicConstraint>, i: nat): Rect
    requires SplitFits(layout, area, constraints) && i < |constraints|
  {
    var dir, p := layout.direction, GetPadded(layout, area);
    var g := FromDir(dir, p);
    var sizes := Sizes(constraints, g.size, 0);
    AsRect(GenericRect(g.pos + Sum(sizes[..i]), sizes[i]), dir, p)
  }

  /**
   * The cells of a split are one per constraint, in constraint order, each
   * starting where the previous one ends, the first at the padded origin and
   * the last ending within the padded area; across the axis every cell is
   * the padded area.
   */
  lemma SplitRectsPartition(layout: SimpleLayout, area: Rect, constraints: seq<BasicConstraint>)
    requires SplitFits(layout, area, constraints)
    ensures var rs, dir, p := SplitRects(layout, area, constraints), layout.direction, GetPadded(layout, area);
            && |rs| == |constraints|
            && (|rs| > 0 ==> FromDir(dir, rs[0]).pos == FromDir(dir, p).pos)
            && (forall i | 0 <= i < |rs| - 1 ::
                  FromDir(dir, rs[i + 1]).pos == FromDir(dir, rs[i]).pos + FromDir(dir, rs[i]).size)
            && (forall i | 0 <= i < |rs| ::
                  FromDir(dir, rs[i]).pos + FromDir(dir, rs[i]).size <= FromDir(dir, p).pos + FromDir(dir, p).size)
            && (forall i | 0 <= i < |rs| :: FromDir(Other(dir), rs[i]) == FromDir(Other(dir), p))
  {
    var rs, dir, p := SplitRects(layout, area, constraints), layout.direction, GetPadded(layout, area);
    var g := FromDir(dir, p);
    var sizes := Sizes(constraints, g.size, 0);
    forall i | 0 <= i < |rs| - 1
      ensures FromDir(dir, rs[i + 1]).pos == FromDir(dir, rs[i]).pos + FromDir(dir, rs[i]).size
    {
      SumPrefixStep(sizes, i);
    }
    forall i | 0 <= i < |rs|
      ensures FromDir(dir, rs[i]).pos + FromDir(dir, rs[i]).size <= g.pos + g.size
    {
      SumPrefixStep(sizes, i);
      assert sizes == sizes[..i + 1] + sizes[i + 1..];
      SumAppend(sizes[..i + 1], sizes[i + 1..]);
    }
  }

  /** Two different cells of a split never overlap on the split axis. */
  lemma SplitRectsDisjoint(layout: SimpleLayout, area: Rect, constraints: seq<BasicConstraint>, i: nat, j: nat)
    requires SplitFits(layout, area, constraints)
    requires i < j < |constraints|
    ensures var rs, dir := SplitRects(layout, area, constraints), layout.direction;
            FromDir(dir, rs[i]).pos + FromDir(dir, rs[i]).size <= FromDir(dir, rs[j]).pos
  {
    var rs, dir, p := SplitRects(layout, area, constraints), layout.direction, GetPadded(layout, area);
    var sizes := Sizes(constraints, FromDir(dir, p).size, 0);
    SumPrefixStep(sizes, i);
    assert sizes[..j] == sizes[..i + 1] + sizes[i + 1..j];
    SumAppend(sizes[..i + 1], sizes[i + 1..j]);
  }

  /** The `i`-th size is the `i`-th constraint resolved and capped at the sum of the sizes before it. */
  lemma SizeStep(cs: seq<BasicConstraint>, size: nat, i: nat)
    requires Resolvable(cs, size, 0) && i < |cs|
    ensures var sizes := Sizes(cs, size, 0);
            var at := Sum(sizes[..i]);
            && at <= size && ResolveFits(cs[i], size, at)
            && sizes[i] == Capped(cs[i], size, at)
            && at + sizes[i] == Sum(sizes[..i + 1])
  {
    SizesAreCappedResolutions(cs, size, 0, i);
    SumPrefixStep(Sizes(cs, size, 0), i);
  }

  /** One step of `split`: the cell for constraint `i` and the running offset after it. */
  lemma SplitStep(layout: SimpleLayout, area: Rect, constraints: seq<BasicConstraint>, g: GenericRect, sizes: seq<nat>,
                  i: nat, offset: nat)
    requires SplitFits(layout, area, constraints) && i < |constraints|
    requires g == FromDir(layout.direction, GetPadded(layout, area)) && sizes == Sizes(constraints, g.size, 0)
    requires offset == Sum(sizes[..i])
    ensures offset <= g.size && ResolveFits(constraints[i], g.size, offset)
    ensures g.pos + offset <= U16_MAX
    ensures SplitRects(layout, area, constraints)[i] ==
            AsRect(GenericRect(g.pos + offset, Capped(constraints[i], g.size, offset)), layout.direction, GetPadded(layout, area))
    ensures offset + Capped(constraints[i], g.size, offset) == Sum(sizes[..i + 1])
  {
    SizeStep(constraints, g.size, i);
    assert SplitRects(layout, area, constraints)[i] == Cell(layout, area, constraints, i);
  }

  /** `split`: resolve the constraints left to right with a running offset and a cap. */
  method Split(layout: SimpleLayout, area: Rect, constraints: seq<BasicConstraint>) returns (rects: seq<Rect>)
    requires SplitFits(layout, area, constraints)
    ensures rects == SplitRects(layout, area, constraints)
    ensures |rects| == |constraints|
    ensures forall i | 0 <= i < |rects| - 1 ::
              FromDir(layout.direction, rects[i + 1]).pos ==
              FromDir(layout.direction, rects[i]).pos + FromDir(layout.direction, rects[i]).size
  {
    var dir := layout.direction;
    var padded := GetPadded(layout, area);
    var genRect := FromDir(dir, padded);
    ghost var sizes := Sizes(constraints, genRect.size, 0);
    ghost var cells := SplitRects(layout, area, constraints);

    var results := new Rect[|constraints|](_ => Rect(0, 0, 0, 0));
    var offset := 0;

    for i := 0 to |constraints|
      invariant offset == Sum(sizes[..i])
      invariant forall j | 0 <= j < i :: results[j] == cells[j]
    {
      SplitStep(layout, area, constraints, genRect, sizes, i, offset);
      var rect, maxSize := PlaceCell(constraints[i], genRect, offset, dir, padded);
      results[i] := rect;
      offset := offset + maxSize;
    }
    rects := results[..];
    SplitRectsPartition(layout, area, constraints);
  }

  /** One pass of the `split` loop: the constraint's size, capped by the room left, placed at the running offset. */
  method PlaceCell(c: BasicConstraint, genRect: GenericRect, offset: nat, dir: Direction, padded: Rect)
    returns (rect: Rect, maxSize: nat)
    requires offset <= genRect.size && ResolveFits(c, genRect.size, offset)
    ensures maxSize == Capped(c, genRect.size, offset)
    ensures rect == AsRect(GenericRect(genRect.pos + offset, maxSize), dir, padded)
  {
    var size := match c
      case Length(len) => len
      case Percentage(pcnt) => FastRoundedPercentage(genRect.size, pcnt)
      case MinLenGrowthPcnt(min, pcnt) => Max(FastRoundedPercentage(genRect.size, pcnt), min)
      case MinLenRemaining(min, remaining) => Max(min, SatSub(genRect.size, offset + remaining));

    maxSize := Min(size, genRect.size - offset);
    rect := AsRect(GenericRect(genRect.pos + offset, maxSize), dir, padded);
  }
}
