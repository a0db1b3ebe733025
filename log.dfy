/**
 * `Log` of src/widgets/log.rs: the newest items that fit, stacked upwards
 * from the bottom of the area, each given a rectangle as tall as its number
 * of lines. Each item's rectangle is handed to the text renderer; the model
 * records these placements instead of the text renderer's writes.
 */
module Log {
  import opened Tui
  import Fragments

  type Item = seq<Fragments.Fragment>

  datatype Log = Log(items: seq<Item>, alignment: Alignment)

  /** `Log::new`: left-aligned. */
  function New(items: seq<Item>): (l: Log)
    ensures l.items == items && l.alignment == Left
  {
    Log(items, Left)
  }

  /** The rectangle an item is rendered into, with the alignment it is rendered with. */
  datatype Placement = Placement(rect: Rect, item: Item, alignment: Alignment)

  /** The `j`-th newest item. */
  function Newest(items: seq<Item>, j: nat): Item
    requires j < |items|
  {
    items[|items| - 1 - j]
  }

  /** The lines the `k` newest items take. */
  function TailLines(items: seq<Item>, k: nat): nat
    requires k <= |items|
  {
    if k == 0 then 0 else TailLines(items, k - 1) + Fragments.NumLines(Newest(items, k - 1))
  }

  /** Every further item adds at least one line. */
  lemma {:induction false} TailLinesGrow(items: seq<Item>, k: nat, m: nat)
    requires k <= m <= |items|
    ensures TailLines(items, k) + (m - k) <= TailLines(items, m)
    decreases m - k
  {
    if k < m {
      TailLinesGrow(items, k, m - 1);
    }
  }

  /**
   * The `take_while` over the items newest first: counting from the `j`
   * newest, items are taken while the lines of the items taken so far stay
   * within the height.
   */
  function TakenFrom(items: seq<Item>, height: nat, j: nat): (k: nat)
    requires j <= |items| && TailLines(items, j) <= height
    ensures j <= k <= |items|
    ensures TailLines(items, k) <= height
    ensures k < |items| ==> TailLines(items, k + 1) > height
    decreases |items| - j
  {
    if j == |items| || TailLines(items, j) + Fragments.NumLines(Newest(items, j)) > height then j
    else TakenFrom(items, height, j + 1)
  }

  /** How many of the newest items are shown. */
  function Shown(items: seq<Item>, height: nat): nat
  {
    TakenFrom(items, height, 0)
  }

  /** The rectangle of the `j`-th newest item: the area's columns, below the lines of the newer items. */
  function PlacementRect(items: seq<Item>, area: Rect, j: nat): Rect
    requires j < |items| && TailLines(items, j + 1) <= area.height
  {
    Rect(area.x, area.y + (area.height - TailLines(items, j + 1)), area.width, Fragments.NumLines(Newest(items, j)))
  }

  /** Everything `render` places, newest item first. */
  function RenderSpec(l: Log, area: Rect): seq<Placement>
  {
    if area.IsEmpty() then []
    else
      var k := Shown(l.items, area.height);
      seq(k, j requires 0 <= j < k =>
        TailLinesGrow(l.items, j + 1, k);
        Placement(PlacementRect(l.items, area, j), Newest(l.items, j), l.alignment))
  }

  /** `render`: take the newest items while their lines fit, then stack them upwards from the bottom. */
  method Render(l: Log, area: Rect) returns (placements: seq<Placement>)
    ensures placements == RenderSpec(l, area)
    ensures area.IsEmpty() ==> placements == []
  {
    if area.width == 0 || area.height == 0 {
      return [];
    }
    var visible := CountVisible(l.items, area.height);
    placements := Stack(l, area, visible);
  }

  /** The first loop of `render`: the `take_while` over the items, newest first, counting the lines. */
  method CountVisible(items: seq<Item>, height: nat) returns (visible: nat)
    ensures visible == Shown(items, height)
  {
    ghost var k := Shown(items, height);
    visible := 0;
    var totalLen := 0;
    while visible < |items|
      invariant visible <= k
      invariant totalLen == TailLines(items, visible)
    {
      totalLen := totalLen + Fragments.NumLines(items[|items| - 1 - visible]);
      if totalLen > height {
        if visible < k {
          TailLinesGrow(items, visible + 1, k);
        }
        break;
      }
      visible := visible + 1;
    }
  }

  /** The second loop of `render`: the shown items stacked upwards from the bottom of the area. */
  method Stack(l: Log, area: Rect, visible: nat) returns (placements: seq<Placement>)
    requires !area.IsEmpty() && visible == Shown(l.items, area.height)
    ensures placements == RenderSpec(l, area)
  {
    var items := l.items;
    ghost var k := visible;
    var yPos: nat := area.height;
    placements := [];
    for j := 0 to visible
      invariant yPos + TailLines(items, j) == area.height
      invariant |placements| == j
      invariant forall i | 0 <= i < j :: placements[i] == RenderSpec(l, area)[i]
    {
      TailLinesGrow(items, j + 1, k);
      var item := items[|items| - 1 - j];
      var numLines := Fragments.NumLines(item);
      var itemYPos := SatSub(yPos, numLines);
      var pos := Rect(area.x, area.y + itemYPos, area.width, numLines);
      placements := placements + [Placement(pos, item, l.alignment)];
      yPos := yPos - numLines;
    }
  }

  /// Properties

  /**
   * The shown items are the longest run of newest items whose lines fit:
   * they fit, and one more would not.
   */
  lemma ShownIsLongestTail(items: seq<Item>, height: nat)
    ensures Shown(items, height) <= |items|
    ensures TailLines(items, Shown(items, height)) <= height
    ensures forall m | Shown(items, height) < m <= |items| :: TailLines(items, m) > height
  {
    var k := Shown(items, height);
    forall m | k < m <= |items|
      ensures TailLines(items, m) > height
    {
      TailLinesGrow(items, k + 1, m);
    }
  }

  /**
   * Stacking: each rectangle spans the area's columns and is as tall as its
   * item's lines; the newest ends at the area's bottom, each older one ends
   * where the next newer one starts, and all lie within the area.
   */
  lemma PlacementsStack(l: Log, area: Rect)
    ensures var ps := RenderSpec(l, area);
            && (forall j | 0 <= j < |ps| ::
                  && ps[j].item == Newest(l.items, j)
                  && ps[j].rect.x == area.x && ps[j].rect.width == area.width
                  && ps[j].rect.height == Fragments.NumLines(ps[j].item)
                  && area.y <= ps[j].rect.y && ps[j].rect.Bottom() <= area.Bottom())
            && (|ps| > 0 ==> ps[0].rect.Bottom() == area.Bottom())
            && (forall j | 0 <= j < |ps| - 1 :: ps[j + 1].rect.Bottom() == ps[j].rect.y)
  {
    var ps := RenderSpec(l, area);
    if !area.IsEmpty() {
      var k := Shown(l.items, area.height);
      forall j | 0 <= j < |ps|
        ensures area.y <= ps[j].rect.y && ps[j].rect.Bottom() <= area.Bottom()
      {
        TailLinesGrow(l.items, j + 1, k);
      }
    }
  }

  /** The placed rectangles' heights add up to the lines of the shown items, which fit in the area. */
  lemma {:induction false} PlacedHeights(l: Log, area: Rect, j: nat)
    requires j <= |RenderSpec(l, area)|
    ensures TailLines(l.items, j) <= area.height
    ensures TailLines(l.items, j) == Heights(RenderSpec(l, area)[..j])
  {
    var ps := RenderSpec(l, area);
    TailLinesGrow(l.items, j, Shown(l.items, area.height));
    if j > 0 {
      PlacedHeights(l, area, j - 1);
      assert ps[..j][..j - 1] == ps[..j - 1];
    }
  }

  /** The sum of the placed rectangles' heights. */
  function Heights(ps: seq<Placement>): nat
  {
    if ps == [] then 0 else Heights(ps[..|ps| - 1]) + ps[|ps| - 1].rect.height
  }
}
