# tui-utils in Dafny

A Dafny model of the core of `tui-utils`, a small Rust toolkit of terminal
widgets and helpers built on top of the `tui` 0.14 library. The model covers:

- the rectangle geometry of `SimpleLayout` and `RectExt`, and the crate-root helpers;
- the fragment model (`Span | Char | Line`) and its two renderers;
- letter wrapping of spans at grapheme boundaries;
- the windowed renderers `SimpleTable`, `SimpleList`, `Log` and `SimpleText`,
  which scroll so the selected item lands on the last visible row;
- the wrapping selection state of `src/list.rs`.

Every call a renderer makes into the host's cell buffer (`set_string`,
`set_stringn`, `set_span`, `get_mut(..).set_char(..)`) is recorded as a `Draw`
value, in call order. A render is a method that returns that sequence. Each
render method is proved to return exactly a specification function of its
inputs. Lemmas about that function state what the widget promises: where
rows go and what is highlighted. The table, list, log and text renders stay
inside the area. `TextFragments` keeps each draw within the area's right edge, but its
rows are bounded by `area.y + area.y`, as its `can_draw_at_y` compares with
the absolute top, and not by the area's height (`TextFragments.RenderRows`).

Modules follow the source files:

| module | file |
|---|---|
| `Tui` | the foreign `tui` types: `Rect`, `Direction`, `Alignment`, `Style`, text as graphemes, `Span`, buffer calls |
| `Layout` | `src/layout.rs` |
| `Lib` | `src/lib.rs` |
| `Fragments` | `src/widgets/mod.rs` |
| `TextFragments` | `src/widgets/text_fragments.rs` (its own, older `Fragment` type) |
| `Wrap` | `src/wrap.rs` (a `Fragment` whose `Span` has one field, as `wrap.rs` matches it) |
| `Table` | `src/widgets/table.rs` |
| `SimpleList` | `src/widgets/simple_list.rs` |
| `Log` | `src/widgets/log.rs` |
| `SimpleText` | `src/widgets/simple_text.rs` |
| `List` | `src/list.rs` |

Text is a sequence of graphemes. Each grapheme carries its display width and
its UTF-8 byte length, which the Unicode crates would compute. Coordinates and
lengths are `nat`. Where the source does an unchecked `u16` `+` or `*`, a
`requires` states that the sum or product fits in `u16`. `saturating_sub` is
`SatSub`. A truncating `as u16` cast is `AsU16`, the value modulo 65536.

Where the source and its documentation disagree, the model follows the code:

- In `wrap.rs`, a `Line` adds 0 to the running counter and does not reset it (`Wrap.LineKeepsCounter`).
- `TextFragments::render` compares the relative row offset with the absolute `area.top()`.
  An area at the top of the screen therefore gets a single line (`TextFragments.OneLineAtTop`).
- `lines_from_bottom` is documented as "the bottom `lines` rows", but the code returns fewer when `2 * lines > height` (see Findings).

## Model

| member | source | states |
|---|---|---|
| Tui.AsU16 | src/widgets/simple_text.rs:50 | The cast result is below 65536, and a value that fits is unchanged. |
| Tui.HighlightFor | src/widgets/table.rs:58-62 | `highlight_symbol` (here and at src/widgets/simple_list.rs:44-48) keeps the symbol and reserves its display width cast to `u16`: at most 65535, and the width itself when that fits. |
| Tui.WidthAppend | src/widgets/mod.rs:35-40 | The display width of joined texts is the sum of their widths. This is the additivity every length fold relies on. |
| Layout.New | src/layout.rs:14-19 | The given direction and no margins. |
| Layout.GetPadded | src/layout.rs:44-46 | The area moved in by the margins, each size less twice its margin, saturating. With no margins, as `new` makes, it is the area itself. |
| Layout.AsRect | src/layout.rs:188-209 | `as_rect` puts the generic position and size on the split axis and copies the other axis from the area. |
| Layout.FastRoundedPercentage | src/layout.rs:366-373 | The digit-by-digit computation equals `(value * pcnt + 50) / 100`, the nearest integer with halves rounded up. The result is at most `value` when `pcnt <= 100`. |
| Layout.PercentAtMostWhole | src/layout.rs:366-373 | A rounded share of at most 100% of `value` is at most `value`. |
| Layout.HalfUp | src/layout.rs:366-373 | The tens-digit rounding step equals adding 50 and dividing by 100. |
| Layout.PercentageExamples | src/layout.rs:366-373 | 50% of 10 is 5, 33% of 10 is 3, 25% of 10 is 3 (2.5 rounds up), 50% of 24 is 12. |
| Layout.Pad | src/layout.rs:305-312 | The origin moves in by the padding on each axis and each size shrinks by twice the padding, saturating. When the padding fits, the far edges move in by the padding too. |
| Layout.PadHoriz | src/layout.rs:314-320 | Same as `pad`, on x only; y and height are unchanged. |
| Layout.PadLeft | src/layout.rs:322-328 | x moves in by the padding and width shrinks by the padding once; the right edge stays when the padding fits. |
| Layout.PadVert | src/layout.rs:330-336 | Same as `pad`, on y only; x and width are unchanged. |
| Layout.LinesFromTop | src/layout.rs:338-343 | Keeps x, y and width; the height is `min(lines, height)`. |
| Layout.LinesFromBottom | src/layout.rs:345-353 | As written: the result stays inside the rect, and its top is `lines` rows above the bottom when `lines <= height`. Its height is `lines` only when `2 * lines <= height`, and smaller otherwise. |
| Layout.LinesFromBottomShortfall | src/layout.rs:345-353 | The bottom 3 rows of a 4-row rect come out as a single row. |
| Layout.LinesFromBottomIntended | src/layout.rs:345-353 | The corrected version: the bottom `min(lines, height)` rows, ending exactly at the rect's bottom. |
| Layout.GridPos | src/layout.rs:355-362 | A cell of the given size at the container origin plus (width · column, height · row). |
| Layout.GridPosAdjacent | src/layout.rs:355-362 | Column `c + 1` starts where column `c` ends, and row `r + 1` starts where row `r` ends. |
| Layout.SplitEvenly | src/layout.rs:51-71 | Two cells of `⌊s/2⌋` on the split axis. The second starts where the first ends, and together they cover the padded size except possibly one cell. The other axis is the padded area's. |
| Layout.SplitQuarters | src/layout.rs:76-97 | Cell k starts at `pos + k·⌊s/4⌋` with size `⌊s/4⌋`, and the four never exceed the padded size. |
| Layout.SplitQuadrants | src/layout.rs:102-121 | Four `⌊w/2⌋ × ⌊h/2⌋` cells: top-left at the padded origin, the others beside and below it, all inside the padded area. |
| Layout.Resolve | src/layout.rs:136-146 | `Length(n)` gives n. `Percentage(p)` gives the rounded percentage of the size. `MinLenGrowthPcnt(m, p)` gives `max(m, pct)`. `MinLenRemaining(m, r)` gives `max(m, size ⊖ (offset + r))`. |
| Layout.Capped | src/layout.rs:148 | The capped size never carries the offset past the padded size. It is the resolved size unless the cap cut it to exactly the remaining space. |
| Layout.Sizes | src/layout.rs:135-154 | One size per constraint, and the offset plus all the sizes stays within the padded size. |
| Layout.SizesAreCappedResolutions | src/layout.rs:136-153 | Size i is `min(resolved, size - offset)`, where the offset is the sum of the earlier sizes. |
| Layout.SizeStep | src/layout.rs:135-153 | At the sum of the earlier sizes the constraint resolves within `u16`, size i is its capped resolution, and adding it gives the next prefix sum. |
| Layout.SplitRectsPartition | src/layout.rs:128-157 | N rects. On the split axis the first starts at the padded origin, each next one starts where the previous ends, and all end within the padded area. On the other axis each is exactly the padded area. |
| Layout.SplitRectsDisjoint | src/layout.rs:128-157 | Rect i ends before rect j starts whenever i < j: the rects do not overlap. |
| Layout.SplitStep | src/layout.rs:135-153 | One pass of the loop: rect i is the capped size at `pos + offset`, and the offset advances to the sum of sizes 0..i. |
| Layout.Split | src/layout.rs:128-157 | The loop with its running offset returns exactly the specified rects, N of them, each starting where the previous one ends. |
| Layout.PlaceCell | src/layout.rs:136-151 | One pass of the loop body: the size is the constraint's capped resolution at the running offset, and the rect is placed at `pos + offset` with that size. |
| Lib.AlignmentOffset | src/lib.rs:19-25 | Left gives 0. Right puts the item flush with the end. Center leaves gaps that differ by at most one. Because both lengths are halved before subtracting, the odd cell goes to the right-hand gap (offset `⌊(total − item)/2⌋`), except when only the item's length is odd: then it goes to the left-hand gap (offset `⌈(total − item)/2⌉`). An item that fits stays inside; one that does not starts at 0. |
| Lib.PadRectHoriz | src/lib.rs:29-35 | x moves in by the padding and width shrinks by twice the padding, saturating; y and height are unchanged. |
| Lib.PadRectLeft | src/lib.rs:39-45 | x moves in by the padding and width shrinks by the padding, saturating. |
| Lib.GridPos | src/lib.rs:64-71 | A dimensions-sized cell at the container origin plus (width · column, height · row). |
| Lib.DuplicatesAgree | src/lib.rs:29-71 | The crate-root `pad_rect_horiz`, `pad_rect_left` and `grid_pos` agree with the `RectExt` versions in `src/layout.rs`. |
| Lib.FillArea | src/lib.rs:48-57 | The nested loops apply `func` exactly once to every cell inside the area and leave every other cell unchanged. |
| Fragments.SpanFragment | src/widgets/mod.rs:25-30 | `Fragment::span` wraps the span with the default options, whose overflow mode is Hide. |
| Fragments.IsLine | src/widgets/mod.rs:81-83 | True exactly for the `Line` fragment. |
| Fragments.Len | src/widgets/mod.rs:73-79 | At most 65535. A span counts its display width when that fits in `u16`, a `Char` counts 1, and the length is 0 exactly for a `Line` or a span whose width is a multiple of 65536 (the `as u16` cast). |
| Fragments.TotalLen | src/widgets/mod.rs:35-40 | Each item adds at most 65535, and the sum is 0 exactly when every item has length 0. |
| Fragments.TotalLenAppend | src/widgets/mod.rs:35-40 | `total_len` of joined sequences is the sum of their total lengths. |
| Fragments.LineItems | src/widgets/mod.rs:44-49 | The longest prefix without a `Line`: a prefix, `Line`-free, and followed by a `Line` when it is shorter than the input. |
| Fragments.LineLen | src/widgets/mod.rs:54-59 | The length of the first line never exceeds the total length. |
| Fragments.CountLinesAppend | src/widgets/mod.rs:64-69 | The number of `Line` markers adds up over concatenation. |
| Fragments.NoBreaksCountNone | src/widgets/mod.rs:64-69 | There are no markers exactly when no fragment is a `Line`. |
| Fragments.NumLines | src/widgets/mod.rs:64-69 | At least one line, and exactly one when no fragment is a `Line`. |
| Fragments.NumLinesJoin | src/widgets/mod.rs:64-69 | `num_lines(a ++ [Line] ++ b) = num_lines(a) + num_lines(b)`. |
| TextFragments.IsLine | src/widgets/text_fragments.rs:162-167 | True exactly for the `Line` fragment. |
| TextFragments.LenCast | src/widgets/text_fragments.rs:152-160 | At most 65535. A span counts its display width (`true`) or byte length (`false`) when that fits in `u16`; a byte length of exactly 65536 casts to 0. A `Char` counts 1 and a `Line` 0. |
| TextFragments.TotalLenBound | src/widgets/text_fragments.rs:116-123 | Each fragment adds at most 65535 to the sum. |
| TextFragments.CanDrawAtX | src/widgets/text_fragments.rs:36-38 | Holds exactly when x is at most `area.x + area.width`. |
| TextFragments.CanDrawAtY | src/widgets/text_fragments.rs:40-42 | Holds exactly when y is at most `area.y`, the area's absolute top, although the render passes a row offset. |
| TextFragments.TotalLenAppend | src/widgets/text_fragments.rs:118-123 | `total_len` of joined sequences is the sum of their total lengths. |
| TextFragments.LineItems | src/widgets/text_fragments.rs:127-132 | The longest `Line`-free prefix. |
| TextFragments.LineLen | src/widgets/text_fragments.rs:136-141 | At most the total length, and equal to it for a `Line`-free sequence. |
| TextFragments.NumLines | src/widgets/text_fragments.rs:145-150 | This revision counts markers only: 0 exactly for a `Line`-free sequence, and at most the number of fragments. |
| TextFragments.NumLinesAppend | src/widgets/text_fragments.rs:145-150 | The marker count adds up over concatenation. |
| TextFragments.Lines | src/widgets/text_fragments.rs:55-68 | The render loop's lines, first of all the first `line_items`. |
| TextFragments.LinesShape | src/widgets/text_fragments.rs:55-68 | One more line than markers. Every line is `Line`-free, and the lines joined with markers give back the input, so the loop's slicing loses nothing. |
| TextFragments.LinesCount | src/widgets/text_fragments.rs:55-68 | There is one more line than there are markers. |
| TextFragments.LinesBreakFree | src/widgets/text_fragments.rs:55-68 | No line holds a marker. |
| TextFragments.LinesJoin | src/widgets/text_fragments.rs:55-68 | Joining the lines with a marker between neighbours gives back the input. |
| TextFragments.LineSplit | src/widgets/text_fragments.rs:58-66 | When the input has a marker, it is the first line, the marker, then everything after it. |
| TextFragments.NumLinesAfterLine | src/widgets/text_fragments.rs:145-150 | The markers of such an input are the first line's (none), that marker, and those after it. |
| TextFragments.DrawLine | src/widgets/text_fragments.rs:73-95 | The inner loop emits exactly the specified draws for one line, and stops exactly when a fragment would pass the right edge. |
| TextFragments.RenderRestStep | src/widgets/text_fragments.rs:55-102 | One pass of the outer loop: either the render ends with what is drawn, or it continues with the remaining fragments on the next row. |
| TextFragments.RenderRestUnfold | src/widgets/text_fragments.rs:55-102 | The rest of the render is the current line's draws, followed by the rest from the next line unless the line stopped, the next row is refused or no marker is left. |
| TextFragments.RenderRestEnds | src/widgets/text_fragments.rs:96-102 | When the loop leaves after this line, what was drawn is everything the render draws. |
| TextFragments.RenderRestGoesOn | src/widgets/text_fragments.rs:96-102 | When the loop goes on, what was drawn plus what is left from past the marker on the next row is everything the render draws. |
| TextFragments.DrawPass | src/widgets/text_fragments.rs:55-95 | One pass of the outer loop up to the row step: the line's draws at its aligned start, whether it stopped, and the offset just past its marker. |
| TextFragments.Render | src/widgets/text_fragments.rs:47-103 | The labelled loop returns exactly the specified draws, and nothing for an empty area. |
| TextFragments.TotalLenCons | src/widgets/text_fragments.rs:118-123 | The total length of `f` followed by `t` is `len(f)` plus that of `t`. |
| TextFragments.LineOutPlaced | src/widgets/text_fragments.rs:70-92 | Fragment i of a line is drawn at `x + total_len(line[..i])` and ends within the right edge. The line is cut exactly when it stops, and the first fragment not drawn would pass the right edge. |
| TextFragments.LineOutDraws | src/widgets/text_fragments.rs:70-92 | No more draws than fragments, and draw i is fragment i at `x + total_len(line[..i])`, ending within the right edge. |
| TextFragments.LineOutCut | src/widgets/text_fragments.rs:73-80 | The line is cut exactly when it stops, and the first fragment not drawn would pass the right edge. |
| TextFragments.LineOutStep | src/widgets/text_fragments.rs:73-95 | One fragment of the inner loop: a marker ends the line, a fragment that does not fit stops it, and one that fits is drawn before the rest. |
| TextFragments.LineOutRow | src/widgets/text_fragments.rs:82-92 | Every draw of a line is on that line's row. |
| TextFragments.RenderRows | src/widgets/text_fragments.rs:55-101 | The draws from line k on lie on rows from `area.y + k` down to at most `area.y + max(k, area.y)` (the `can_draw_at_y` comparison with the absolute top), and at most the number of breaks left below `area.y + k`, whatever the area's height. |
| TextFragments.DrawnLines | src/widgets/text_fragments.rs:55-101 | The number of lines drawn is at least one and at most the number of lines. |
| TextFragments.DrawnLinesStop | src/widgets/text_fragments.rs:55-101 | The render stops after the last line drawn (it was the last line, a fragment did not fit, or the next row is refused) and after no line before it. |
| TextFragments.RenderRestLines | src/widgets/text_fragments.rs:55-101 | The draws from line k on are, in order, each drawn line's draws at its aligned start on the next row, up to the first line after which the render stops. |
| TextFragments.LinesOutRows | src/widgets/text_fragments.rs:74-97 | The draws of n lines from row offset k lie on rows `area.y + k` to `area.y + k + n - 1`. |
| TextFragments.RenderLines | src/widgets/text_fragments.rs:47-103 | The render is nothing on an empty area, and otherwise line j of the items, drawn from its aligned start on row `area.y + j`, for every line up to the first after which it stops. |
| TextFragments.OneLineAtTop | src/widgets/text_fragments.rs:40-42 | An area at y = 0 draws only its first line, however tall it is. |
| Wrap.TotalLenAppend | src/wrap.rs:19-30 | The fragment length sum adds up over concatenation. |
| Wrap.WidthSlice | src/wrap.rs:45-57 | A slice of a text is no wider than the text. |
| Wrap.Segments | src/wrap.rs:45-61 | The segment split always has a segment, and the first one extends the segment in progress. |
| Wrap.FlattenSnoc | src/wrap.rs:53-72 | Flattening segments with one more at the end appends that segment. |
| Wrap.SegmentsCover | src/wrap.rs:45-72 | The segments, concatenated, are exactly the input content: nothing dropped or duplicated. |
| Wrap.SegmentsWhenFits | src/wrap.rs:45-51 | When counter + width fits, there is one segment holding the whole content. |
| Wrap.SegmentsFit | src/wrap.rs:45-61 | Every segment ends within the area width after its starting counter, unless it is a single grapheme that is wider by itself. |
| Wrap.SegmentsMaximal | src/wrap.rs:45-60 | Every segment before the last stops because its next grapheme would overflow; that grapheme begins the next segment. |
| Wrap.SegmentsMaximalBreak | src/wrap.rs:52-61 | The step where the grapheme does not fit: the closed segment is maximal, and so is the rest. |
| Wrap.MaximalCons | src/wrap.rs:52-61 | A segment overflowed by the first grapheme of a maximal run makes, in front of it, a longer maximal run. |
| Wrap.BrokenSnoc | src/wrap.rs:53-57 | Each split segment is emitted as its span followed by a `Line`. |
| Wrap.BrokenThenLast | src/wrap.rs:53-72 | The split segments followed by the last span give the joined output. |
| Wrap.JoinedShape | src/wrap.rs:53-72 | The output has the shape Span (Line Span)*, every span in the input style. Its span texts are the segments, and their contents are the flattened segments. |
| Wrap.WrapStart | src/wrap.rs:42-44 | The loop invariant holds on entry with the incoming counter. |
| Wrap.WrapStepBound | src/wrap.rs:46-47 | The counter plus the next grapheme's width stays below the incoming counter plus the span's width, so the `u16` addition cannot overflow. |
| Wrap.SegmentsStep | src/wrap.rs:45-61 | The segment specification takes one grapheme at a time: it continues when the grapheme fits and starts a new segment with it when it does not. |
| Wrap.WrapStep | src/wrap.rs:45-61 | One loop step keeps the invariant. A fitting grapheme extends the segment; an overflowing one closes it and resets the counter to its own width. |
| Wrap.WrapStepFits | src/wrap.rs:45-51 | A grapheme that fits extends the open segment and the counter by its width. |
| Wrap.WrapStepSplits | src/wrap.rs:52-61 | A grapheme that overflows closes the open segment and starts the next one, the counter restarting at its width. |
| Wrap.WidthSliceStep | src/wrap.rs:46-47 | A slice plus the grapheme after it is no wider than the text. |
| Wrap.LoopFitsStep | src/wrap.rs:46-47 | When no `+= ch_width` overflows from grapheme `pos` on, this one does not, nor any from the next grapheme on with the counter it leaves. |
| Wrap.LoopAdvance | src/wrap.rs:45-61 | One pass keeps the loop state and no-overflow condition: the grapheme extends the segment when it fits, and otherwise closes it and restarts the counter at its width. |
| Wrap.WrapAdvance | src/wrap.rs:45-61 | The loop body: the counter grows by the grapheme's width when it fits and restarts at it otherwise, a closed segment is emitted with a `Line`, and the loop state holds at the next grapheme. |
| Wrap.WrapLoop | src/wrap.rs:42-61 | Given that no `u16` addition of the loop overflows, the grapheme loop emits each closed segment followed by a `Line`, and leaves the loop invariant at the end of the content. |
| Wrap.WrapFinish | src/wrap.rs:63-72 | At the end of the loop the segments are the specification's. The returned counter is the last segment's width counted twice after a split at a position above zero, and otherwise the running counter. |
| Wrap.WrapSpanLetters | src/wrap.rs:35-75 | Given that none of its `u16` additions overflows, the method returns the joined segments and the specified counter. The output alternates spans and `Line`s in the input style, and its span contents give back the input content. When the span fits after the counter, it is returned whole and the counter grows by its width. |
| Wrap.LastSegmentNarrower | src/wrap.rs:63-72 | The last segment is no wider than the whole content. |
| Wrap.Chunks | src/wrap.rs:19-30 | One chunk of output per input fragment. |
| Wrap.ByLettersStep | src/wrap.rs:19-30 | One pass of the loop appends the current fragment's chunk; its additions do not overflow, nor do those of the fragments after it with the counter it leaves. |
| Wrap.ByLettersUnfold | src/wrap.rs:19-30 | The flattened chunks from fragment i are fragment i's chunk followed by those from i + 1 with the counter after it. |
| Wrap.CounterAfterBound | src/wrap.rs:22-28 | One fragment adds at most twice its length to the counter. |
| Wrap.ByLettersEnd | src/wrap.rs:19-32 | No fragments left gives no further output. |
| Wrap.ByLetters | src/wrap.rs:12-33 | Given that none of the `u16` additions of the fragments overflows, the loop returns exactly the flattened chunks of the input fragments, threading one counter through all of them. |
| Wrap.ChunksUnwrap | src/wrap.rs:19-32 | Each span's chunk alternates spans and `Line`s in its style and merges back to that span; each `Char` and `Line` passes through alone. So deleting the inserted lines and merging gives back the input. |
| Wrap.AlternatesLen | src/wrap.rs:53-72 | The total length of a wrapped span's output is the width of its contents. |
| Wrap.FlatCons | src/wrap.rs:19-32 | Flattening a leading chunk puts that chunk first. |
| Wrap.ByLettersKeepsLength | src/wrap.rs:19-32 | Wrapping only inserts zero-length lines, so the total length is unchanged. |
| Wrap.ByLettersWhenFits | src/wrap.rs:19-32 | When everything fits after the counter, the output is the input. |
| Wrap.SegmentsLastWithin | src/wrap.rs:45-72 | With no grapheme wider than the area, an unsplit span fits after its counter, and the last segment of a split one fits a line. |
| Wrap.LoopFitsNarrow | src/wrap.rs:45-47 | With no grapheme wider than the area, a counter within twice the area width and three widths within `u16`, no `+= ch_width` overflows. |
| Wrap.NarrowSpanFits | src/wrap.rs:35-75 | Under the same conditions no addition of `wrap_span_letters` overflows, however long the span, and the counter it leaves is within twice the area width. |
| Wrap.NarrowLettersFit | src/wrap.rs:12-33 | Spans of graphemes no wider than the area, and line breaks, never overflow the counter of `by_letters` when three area widths fit in `u16`, whatever their total length. |
| Wrap.LineKeepsCounter | src/wrap.rs:25-28 | A `Line` does not reset the counter: "ab", a line and "cd" at width 3 still split "cd". |
| Table.RoomFrom | src/widgets/table.rs:87-96 | The header loop's run of columns: every column in it is wider than the highlight width, and the column after it, if any, is not. |
| Table.ShownFrom | src/widgets/table.rs:112-118 | The rows drawn: each fits below the header and has N fields. The row after them, if any, is past the height or has a different field count. |
| Table.RowsFitStep | src/widgets/table.rs:112-118 | A row that fits, in front of a run of rows that fit, makes a longer run. |
| Table.DrawHeader | src/widgets/table.rs:87-96 | The header loop returns exactly the specified header writes and breaks at the first column with no room. |
| Table.DrawCells | src/widgets/table.rs:128-148 | The column loop returns exactly the specified cell writes and breaks at the first column with no room. |
| Table.DrawRow | src/widgets/table.rs:120-148 | One row: the highlight symbol when it is the selected row, then its cells in the row's style. |
| Table.DrawRows | src/widgets/table.rs:112-151 | The row loop draws exactly the rows `ShownFrom` admits, each at the next `offset_y`. |
| Table.Render | src/widgets/table.rs:70-152 | Returns exactly the specified draws. An empty area draws nothing, and a header whose length differs from the number of constraints aborts the whole render. |
| Table.DrawTable | src/widgets/table.rs:77-152 | After the column split: the header writes when there is a header, then the rows after the item offset. A header with the wrong length aborts. |
| Table.ColumnsInArea | src/widgets/table.rs:75 | One column per constraint, each within the area's columns and spanning its rows. |
| Table.ItemOffset | src/widgets/table.rs:103-108 | The item offset never passes the selection, and the selected row lands inside the area. A selection past the visible rows lands on the last row; a selection within them, or none, gives offset 0. |
| Table.ShownRowsBound | src/widgets/table.rs:112-118 | At most `height - headerRows` rows are drawn. |
| Table.RowDrawsOnRow | src/widgets/table.rs:120-150 | A row's writes all sit on row `area.y + headerRows + r`, within the area's columns. |
| Table.RowsDrawsWithin | src/widgets/table.rs:112-151 | The k rows' writes lie within the area's columns and on rows `headerRows..headerRows + k`. |
| Table.RenderWithinArea | src/widgets/table.rs:70-152 | Every write of the render lies inside the area. |
| Table.HeaderPlacement | src/widgets/table.rs:82-101 | The header writes come first. Header cell i goes on row `area.y` at `col_i.x + hlWidth` with max width `col_i.width - hlWidth`, stopping at the first column with no room. |
| Table.RowHighlight | src/widgets/table.rs:120-139 | The selected row, with a highlight, starts with the symbol at `area.x` and its cells use the highlight style. Any other row's cells keep their own style. |
| Table.ScrollingEdgeSelection | src/widgets/table.rs:377-393 | Selection 10 in 6 rows with a header: offset 6, five rows shown (items 7 to 11), the last of them highlighted. |
| Table.OverflowSelection | src/widgets/table.rs:431-447 | Selection 21 of 20 items: offset 17, three rows shown, none highlighted. |
| Table.BasicSizes | src/widgets/table.rs:277-295 | In width 12, `Length(6), Length(6)` resolve to 6 and 6. |
| Table.BasicSplitFits | src/widgets/table.rs:277-295 | That split fits in a 12×5 area. |
| Table.BasicColumns | src/widgets/table.rs:277-295 | The columns are x 0..6 and 6..12. |
| Table.BasicRow | src/widgets/table.rs:277-295 | Row r writes its two fields at x 0 and 6 on row r. |
| Table.BasicShown | src/widgets/table.rs:277-295 | All five rows are shown. |
| Table.BasicRows | src/widgets/table.rs:277-295 | The five rows give the expected writes. |
| Table.BasicMultiline | src/widgets/table.rs:277-295 | Five two-field rows with `Length(6), Length(6)` in a 12×5 area, with no header, render as "Left1 Right1" … "Left5 Right5": field c of row r at x = 6c, y = r. |
| SimpleList.Render | src/widgets/simple_list.rs:55-103 | The item loop returns exactly the specified writes, and nothing for an empty area. |
| SimpleList.DrawItem | src/widgets/simple_list.rs:78-101 | One pass of the item loop: the symbol then the item in the symbol's style for the highlighted row, and only the item otherwise. |
| SimpleList.YOffset | src/widgets/simple_list.rs:60-63 | The offset never passes the selection, and the selection lands inside the area. A selection at or past the height lands on row `height - 1`; a smaller one, or none, gives offset 0. |
| SimpleList.ItemHighlight | src/widgets/simple_list.rs:78-101 | The highlighted row writes the symbol at `area.x`, then its content at `area.x + hlWidth` in the highlight style. Any other row writes only its content, in its own style. |
| SimpleList.ItemsDrawsShape | src/widgets/simple_list.rs:71-102 | Item i goes on row `area.y + i`. Content goes at `area.x + hlWidth` with max width `width - hlWidth`. Only the selected row gets the symbol, and it does get it when it is drawn. |
| SimpleList.ItemsDrawsWrites | src/widgets/simple_list.rs:71-102 | Item i goes on row `area.y + i` at the offsets above, and a symbol only on the selected row. |
| SimpleList.ItemsDrawsSymbol | src/widgets/simple_list.rs:78-91 | The symbol is drawn on the selected row once that row is reached. |
| SimpleList.RenderShape | src/widgets/simple_list.rs:55-103 | At most `height` items, each on its row inside the area. Only the selected row is highlighted, and with no selection nothing is. |
| Log.New | src/widgets/log.rs:29-35 | The given items, left-aligned. |
| Log.TailLinesGrow | src/widgets/log.rs:61-66 | Each further item adds at least one line. |
| Log.TakenFrom | src/widgets/log.rs:58-67 | The `take_while` stops at the first item that would push the line total past the height. |
| Log.Render | src/widgets/log.rs:51-86 | The two loops return exactly the specified placements, and nothing for an empty area. |
| Log.CountVisible | src/widgets/log.rs:58-67 | The first loop counts exactly the items the `take_while` takes. |
| Log.Stack | src/widgets/log.rs:69-85 | The second loop places exactly the specified rects, from the area's bottom upwards. |
| Log.ShownIsLongestTail | src/widgets/log.rs:58-67 | The shown items are the longest run of newest items whose lines fit in the height. |
| Log.PlacementsStack | src/widgets/log.rs:56-85 | Each rect spans the area's columns, is as tall as its item's lines and lies within the area. The newest ends at the area's bottom, and each older one ends where the next newer one starts. |
| Log.PlacedHeights | src/widgets/log.rs:69-85 | The placed heights add up to the shown items' lines, which fit in the height, so `y_pos -= num_lines` never underflows. |
| SimpleText.New | src/widgets/simple_text.rs:22-31 | The given text, left-aligned, in the default style. |
| SimpleText.Render | src/widgets/simple_text.rs:49-59 | Nothing exactly when the byte length cast to `u16` exceeds the width. Otherwise one write on row `area.y`, with the text and style, at `area.x + alignment_offset` of the cast length, ending within the area by that length. For a text under 65536 bytes, the cast changes nothing. |
| SimpleText.LongTextDrawn | src/widgets/simple_text.rs:50-58 | A text of `65536 + n` bytes with `n` within the width is longer than the area, yet the cast makes its length `n`, so it is written at the offset for `n`. |
| SimpleText.DefaultAtLeft | src/widgets/simple_text.rs:22-31 | `new` is left-aligned with the default style, so a fitting text is written at `area.x`. |
| SimpleText.RightAlignedEndsAtRight | src/widgets/simple_text.rs:56-58 | Right-aligned text ends exactly at the area's right edge. |
| List.Inc | src/list.rs:32-34 | `(i + 1) mod max` is below max, and 0 when max is 0. It steps by one, or wraps from the last index to 0. |
| List.Dec | src/list.rs:38-44 | An in-bounds index stays in bounds. 0 goes to the last index, or stays 0 with nothing to index; any other goes one down. |
| List.IncDecInverse | src/list.rs:32-44 | For an in-bounds index, decrement undoes increment and increment undoes decrement. |
| List.Bounded | src/list.rs:50-54 | After `update_bounds` the index is in bounds, or 0 with nothing to index. An in-bounds index is kept; an out-of-bounds one moves to the last index. |
| List.WrappingIndex.constructor | src/list.rs:13-15 | The index starts at the given value. |
| List.WrappingIndex.Increment | src/list.rs:32-34 | The field becomes the wrapped successor, below max when max > 0. |
| List.WrappingIndex.Decrement | src/list.rs:38-44 | The field becomes the wrapped predecessor, in bounds when it was. |
| List.WrappingIndex.UpdateBounds | src/list.rs:50-54 | The field is clamped into bounds; an in-bounds value is unchanged. |
| List.WrappedSelection.constructor | src/list.rs:103-106 | The items are stored and the first is selected. |
| List.WrappedSelection.WithIndex | src/list.rs:107-110 | The items are stored with the given index. |
| List.WrappedSelection.Index | src/list.rs:114-116 | The index is below the number of items exactly when `is_valid_index` holds. |
| List.WrappedSelection.IsValidIndex | src/list.rs:120-122 | Holds exactly when the index is below the number of items; the `num_items() > 0` test is implied by that. |
| List.WrappedSelection.Selected | src/list.rs:120-132 | `Some` of the item at the index exactly when `is_valid_index` holds: the items are non-empty and the index is below their count. |
| List.WrappedSelection.UpdateSelected | src/list.rs:136-142 | A write through `selected_mut` replaces the selected item exactly when the index is valid, and otherwise changes nothing. |
| List.WrappedSelection.IncSelected | src/list.rs:146-148 | Only the index changes, to its wrapped successor, which is valid when there are items. |
| List.WrappedSelection.DecSelected | src/list.rs:152-154 | Only the index changes, to its wrapped predecessor; a valid index stays valid. |
| List.WrappedSelection.SetSelected | src/list.rs:158-164 | An index past the items is ignored; any other becomes exactly the index. The items are unchanged. |
| List.WrappedSelection.UpdateBounds | src/list.rs:170-172 | The index is clamped to the items, which are unchanged; it is valid when there are items. |
| List.WrappedSelection.SetItems | src/list.rs:178-180 | A write through `items_mut` replaces the items and leaves the index. |
| List.SelectableEnum.constructor | src/list.rs:253-258 | The first variant is selected and the index is valid. |
| List.SelectableEnum.Index | src/list.rs:263-265 | A valid variant index whenever there is a variant. |
| List.SelectableEnum.Selected | src/list.rs:270-273 | The variant at the index, which is in range whenever there is a variant. |
| List.SelectableEnum.Increment | src/list.rs:277-279 | The index moves to its wrapped successor and stays valid. |
| List.SelectableEnum.Decrement | src/list.rs:283-285 | The index moves to its wrapped predecessor and stays valid. |

## Left out

- The helper modules `src/helpers/*.rs` wrap `tui` constructors for styles, blocks and colours and have no logic of their own.
- The builder methods (`select`, `header`, `alignment`, `highlight_symbol`, `margin`, …) only set a field. The models take the configured record instead.
- `tui`'s `Buffer` is foreign: how `set_string`, `set_stringn` and `set_span` truncate or clip, and what cells end up holding, is not modelled. The renders record the calls. `Style` is an opaque token.
- Grapheme segmentation and display widths come from the Unicode crates. They are input data: each grapheme carries its width and byte length.
- Wrap: segment boundaries are grapheme indices instead of byte offsets. `segment.width()` is the sum of the segment's grapheme widths.
- Rust's `u16` overflow panics are replaced by preconditions where the source adds or multiplies unchecked. The folds `total_len` and `num_lines`, the table's `offset_y`, and `area.x + x` / `area.y + i` positions are unbounded naturals. Their `u16` overflow is not modelled.
- The highlight width `width() as u16` of `SimpleTable` and `SimpleList` is cast with `AsU16`. Their `row_index as u16` and `i as u16` casts are not modelled: both loops stop once the index reaches the area's height, which is a `u16`, so the cast cannot truncate.
- Wrap.Len: a span's length is its uncast display width. `by_letters` calls `len()` only on `Char` and `Line` fragments, and the length properties of the wrap (`AlternatesLen`, `ByLettersKeepsLength`) are about the unbounded sum.
- Wrap.WrapSpanLetters: the `ch.width() as u16` and `segment.width() as u16` casts are not modelled. Its precondition bounds every counter sum by 65535, which rules out a grapheme or a last segment 65536 or more columns wide, the only inputs the casts would truncate.
- List: `index + 1` overflowing `usize` is not modelled.
- List.SelectableEnum: `T::items()` is a fixed sequence given to the constructor, and the index is an object the class holds.
- List.WrappedSelection.UpdateSelected: `selected_mut` hands out a mutable reference. The model applies one write through it instead, so aliasing of the reference is not modelled.
- List.WrappedSelection.SetItems: likewise, `items_mut` is modelled as one replacement of the items.
- The `Deref`, `Index`, `Into` and `NumItems` impls of `src/list.rs` and the generic iterator types of the widgets are plumbing. The items are sequences.
- Lib.FillArea: the buffer is an `array2` indexed by absolute `[x, y]` from 0, not `tui`'s buffer with its own origin. The cell type is a type parameter.
- Log.Render: `Log` hands each item to `TextFragments::render`, but `src/widgets/mod.rs` fragments are not that renderer's `Fragment` type. The model returns each item's rect, item and alignment instead of the text writes.
- Log.Render: the lazy `take_while` runs interleaved with the placement loop in the source. The model counts the taken items in a first loop, then places them; the placements are the same.
- The test scaffolding (`TestBackend`, `Terminal`, `assert_buffer`) is rendering plumbing. Its expected outputs appear only as the concrete lemmas of `Table` (offsets and rows), not as full cell grids.
- The files come from different revisions of the crate; each is modelled as written. `TextFragments` has its own `Span(Span, bool)` fragment and a marker-only `num_lines`. `Fragments` has `Span(Span, SpanOptions)` and `1 +` markers. `Wrap` uses a one-field `Span`.

## Findings

| source | as written | input that shows it | evidently intended | confidence | as-written member | corrected member |
|---|---|---|---|---|---|---|
| src/layout.rs:345-353 | `lines_from_bottom` sets the height to `min(lines, height - lines)`, so asking for more than half the rows returns fewer rows than asked | a 10×4 rect at (0, 0) asked for its bottom 3 lines gives `Rect(0, 1, 10, 1)`: one row, not three | the bottom `min(lines, height)` rows, ending at the rect's bottom: `Rect(0, 1, 10, 3)` | not executed | Layout.LinesFromBottomShortfall | Layout.LinesFromBottomIntended |
