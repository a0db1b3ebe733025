/**
 * The selection state of src/list.rs: an index that wraps around zero and a
 * maximum, a sequence of items selected by such an index, and a selectable
 * list of enum variants.
 */
module List {
  import opened Tui

  /// Wrapping arithmetic

  /** `increment`: one up, back to 0 past the last index; 0 when there is nothing to index. */
  function Inc(i: nat, max: nat): (r: nat)
    ensures max > 0 ==> r < max
    ensures max == 0 ==> r == 0
    ensures i + 1 < max ==> r == i + 1
    ensures max > 0 && i + 1 == max ==> r == 0
  {
    if max > 0 then (i + 1) % max else max
  }

  /** `decrement`: an in-bounds index stays in bounds, 0 going to the last index and anything else one down. */
  function Dec(i: nat, max: nat): (r: nat)
    ensures i < max ==> r < max
    ensures i == 0 ==> r == SatSub(max, 1)
    ensures i > 0 ==> r == i - 1
  {
    if i == 0 then SatSub(max, 1) else i - 1
  }

  /** `update_bounds`: in bounds afterwards, or 0 with nothing to index; an in-bounds index is kept. */
  function Bounded(i: nat, max: nat): (r: nat)
    ensures max > 0 ==> r < max
    ensures max == 0 ==> r == 0
    ensures i < max ==> r == i
    ensures i >= max > 0 ==> r == max - 1
  {
    if i >= max then SatSub(max, 1) else i
  }

  /** For an in-bounds index, decrementing undoes incrementing and incrementing undoes decrementing. */
  lemma IncDecInverse(i: nat, max: nat)
    requires i < max
    ensures Dec(Inc(i, max), max) == i
    ensures Inc(Dec(i, max), max) == i
  {
    if i + 1 < max {
      assert Inc(i, max) == i + 1;
    } else {
      assert Inc(i, max) == 0;
    }
    if i == 0 {
      assert Inc(max - 1, max) == 0 by {
        assert (max - 1 + 1) % max == 0;
      }
    } else {
      assert Inc(i - 1, max) == i;
    }
  }

  /// WrappingIndex

  /** `WrappingIndex`: the index, overwritten in place by its operations. */
  class WrappingIndex {
    var value: nat

    /** `WrappingIndex::new`. */
    constructor(index: nat)
      ensures value == index
    {
      value := index;
    }

    method Increment(max: nat)
      modifies this
      ensures value == Inc(old(value), max)
      ensures max > 0 ==> value < max
    {
      value := if max > 0 then (value + 1) % max else max;
    }

    method Decrement(max: nat)
      modifies this
      ensures value == Dec(old(value), max)
      ensures old(value) < max ==> value < max
    {
      value := if value == 0 then SatSub(max, 1) else value - 1;
    }

    method UpdateBounds(max: nat)
      modifies this
      ensures value == Bounded(old(value), max)
      ensures max > 0 ==> value < max
      ensures old(value) < max ==> value == old(value)
    {
      if value >= max {
        value := SatSub(max, 1);
      }
    }
  }

  /// WrappedSelection

  /** `WrappedSelection`: items and the wrapping index that selects one of them. */
  class WrappedSelection<T> {
    const index: WrappingIndex
    var items: seq<T>

    /** `WrappedSelection::new`: the first item is selected. */
    constructor(items: seq<T>)
      ensures this.items == items && index.value == 0 && fresh(index)
    {
      this.index := new WrappingIndex(0);
      this.items := items;
    }

    /** `with_index`: the index is copied in. */
    constructor WithIndex(i: nat, items: seq<T>)
      ensures this.items == items && index.value == i && fresh(index)
    {
      this.index := new WrappingIndex(i);
      this.items := items;
    }

    /** `index`: the current position, below the number of items exactly when it is valid. */
    function Index(): (r: nat)
      reads this, index
      ensures r < |items| <==> IsValidIndex()
    {
      index.value
    }

    /** `is_valid_index`: there is an item and the index is below the number of items; the first test is implied by the second. */
    predicate IsValidIndex()
      reads this, index
      ensures IsValidIndex() <==> index.value < |items|
    {
      |items| > 0 && index.value < |items|
    }

    /** `selected`: the selected item, exactly when the index is valid. */
    function Selected(): (r: Option<T>)
      reads this, index
      ensures r.Some? <==> IsValidIndex()
      ensures r.Some? ==> r.value == items[index.value]
    {
      if !IsValidIndex() then None else Some(items[index.value])
    }

    /**
     * `selected_mut` followed by a write through the reference: the selected
     * item is replaced exactly when the index is valid.
     */
    method UpdateSelected(f: T -> T) returns (found: bool)
      modifies this
      ensures found <==> old(IsValidIndex())
      ensures items == if found then old(items)[index.value := f(old(items)[index.value])] else old(items)
      ensures |items| == |old(items)|
    {
      if !(|items| > 0 && index.value < |items|) {
        return false;
      }
      items := items[index.value := f(items[index.value])];
      found := true;
    }

    /** `inc_selected`: only the index changes. */
    method IncSelected()
      modifies index
      ensures index.value == Inc(old(index.value), |items|)
      ensures items == old(items)
      ensures |items| > 0 ==> IsValidIndex()
    {
      index.Increment(|items|);
    }

    /** `dec_selected`: only the index changes. */
    method DecSelected()
      modifies index
      ensures index.value == Dec(old(index.value), |items|)
      ensures items == old(items)
      ensures old(IsValidIndex()) ==> IsValidIndex()
    {
      index.Decrement(|items|);
    }

    /** `set_selected`: an index past the items is ignored, any other is taken as is. */
    method SetSelected(selected: nat)
      modifies index
      ensures selected >= |items| ==> index.value == old(index.value)
      ensures items == old(items)
      ensures selected < |items| ==> index.value == selected && IsValidIndex()
    {
      if selected >= |items| {
        return;
      }
      index.value := selected;
    }

    /** `update_bounds`: the index is brought back in bounds after items were removed. */
    method UpdateBounds()
      modifies index
      ensures index.value == Bounded(old(index.value), |items|)
      ensures items == old(items)
      ensures |items| > 0 ==> IsValidIndex()
    {
      index.UpdateBounds(|items|);
    }

    /** `items_mut` followed by a write: the items change, the index does not. */
    method SetItems(newItems: seq<T>)
      modifies this
      ensures items == newItems
      ensures index.value == old(index.value)
    {
      items := newItems;
    }
  }

  /// SelectableEnum

  /** `SelectableEnum`: an index into the fixed list of an enum's variants. */
  class SelectableEnum<T> {
    const variants: seq<T>
    const index: WrappingIndex

    /** The index is within the variants, or 0 when there are none. */
    ghost predicate Valid()
      reads this, index
    {
      index.value < |variants| || (|variants| == 0 && index.value == 0)
    }

    /** `SelectableEnum::new`: the first variant is selected. */
    constructor(variants: seq<T>)
      ensures this.variants == variants && index.value == 0 && fresh(index)
      ensures Valid()
    {
      this.variants := variants;
      this.index := new WrappingIndex(0);
    }

    /** `index`: the current position, a valid variant index whenever there is a variant. */
    function Index(): (r: nat)
      reads this, index
      ensures Valid() && |variants| > 0 ==> r < |variants|
    {
      index.value
    }

    /** `selected`: the variant at the index, in range whenever there is a variant. */
    function Selected(): (v: T)
      requires Valid() && |variants| > 0
      reads this, index
      ensures v == variants[index.value]
    {
      variants[index.value]
    }

    method Increment()
      requires Valid()
      modifies index
      ensures index.value == Inc(old(index.value), |variants|)
      ensures Valid()
    {
      index.Increment(|variants|);
    }

    method Decrement()
      requires Valid()
      modifies index
      ensures index.value == Dec(old(index.value), |variants|)
      ensures Valid()
    {
      index.Decrement(|variants|);
    }
  }
}
