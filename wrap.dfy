/**
 * Wrapping fragments by letters (src/wrap.rs): spans are split at grapheme
 * boundaries so that a running line-length counter, threaded across all the
 * fragments, stays within the area width; a line break is inserted at every
 * split. Grapheme segmentation and widths are given with the text.
 */
module Wrap {
  import opened Tui

  /** The fragment union as src/wrap.rs matches it: a span carries only its text and style. */
  datatype Fragment =
    | Span(span: TextSpan)
    | Char(ch: char, style: Style)
    | Line

  /** Display width of a span, 1 for a character, 0 for a line break. */
  function Len(f: Fragment): nat
  {
    match f
    case Span(span) => Width(span.content)
    case Char(_, _) => 1
    case Line => 0
  }

  function TotalLen(fs: seq<Fragment>): nat
  {
    if fs == [] then 0 else TotalLen(fs[..|fs| - 1]) + Len(fs[|fs| - 1])
  }

  lemma {:induction false} TotalLenAppend(a: seq<Fragment>, b: seq<Fragment>)
    ensures TotalLen(a + b) == TotalLen(a) + TotalLen(b)
    decreases |b|
  {
    if b == [] {
      assert a + b == a;
    } else {
      assert (a + b)[..|a + b| - 1] == a + b[..|b| - 1];
      TotalLenAppend(a, b[..|b| - 1]);
    }
  }

  lemma WidthSlice(t: Text, i: nat, j: nat)
    requires i <= j <= |t|
    ensures Width(t[i..j]) <= Width(t)
    ensures Width(t[i..]) <= Width(t)
  {
    WidthSplit(t, i);
    var u := t[i..];
    WidthSplit(u, j - i);
    assert u[..j - i] == t[i..j];
  }

  lemma WidthSplit(t: Text, i: nat)
    requires i <= |t|
    ensures Width(t[..i]) + Width(t[i..]) == Width(t)
  {
    assert t == t[..i] + t[i..];
    WidthAppend(t[..i], t[i..]);
  }

  /// The greedy wrap of one span, as a reference definition

  /**
   * The segments a span's graphemes `gs` are cut into, given the running
   * counter and the segment `cur` gathered so far: each grapheme's width is
   * added to the counter; a grapheme that takes it past `areaWidth` closes the
   * segment, starts the next one, and restarts the counter at its own width.
   */
  function Segments(gs: Text, areaWidth: nat, counter: nat, cur: Text): (segs: seq<Text>)
    ensures |segs| >= 1
    ensures cur <= segs[0]
    decreases |gs|
  {
    if gs == [] then [cur]
    else
      var c := counter + gs[0].width;
      if c <= areaWidth then Segments(gs[1..], areaWidth, c, cur + [gs[0]])
      else [cur] + Segments(gs[1..], areaWidth, gs[0].width, [gs[0]])
  }

  function Flatten(segs: seq<Text>): Text
  {
    if segs == [] then [] else segs[0] + Flatten(segs[1..])
  }

  lemma {:induction false} FlattenSnoc(segs: seq<Text>, last: Text)
    ensures Flatten(segs + [last]) == Flatten(segs) + last
    decreases |segs|
  {
    if segs == [] {
      assert [last][1..] == [];
    } else {
      assert (segs + [last])[1..] == segs[1..] + [last];
      FlattenSnoc(segs[1..], last);
    }
  }

  /** Nothing is lost or duplicated: the segments put back together are the graphemes. */
  lemma {:induction false} SegmentsCover(gs: Text, areaWidth: nat, counter: nat, cur: Text)
    ensures Flatten(Segments(gs, areaWidth, counter, cur)) == cur + gs
    decreases |gs|
  {
    if gs == [] {
      assert [cur][1..] == [];
    } else {
      var g := gs[0];
      assert [g] + gs[1..] == gs;
      if counter + g.width <= areaWidth {
        SegmentsCover(gs[1..], areaWidth, counter + g.width, cur + [g]);
      } else {
        var rest := Segments(gs[1..], areaWidth, g.width, [g]);
        SegmentsCover(gs[1..], areaWidth, g.width, [g]);
        assert ([cur] + rest)[1..] == rest;
      }
    }
  }

  /** When everything fits after the counter, the span stays in one segment. */
  lemma {:induction false} SegmentsWhenFits(gs: Text, areaWidth: nat, counter: nat, cur: Text)
    requires counter + Width(gs) <= areaWidth
    ensures Segments(gs, areaWidth, counter, cur) == [cur + gs]
    decreases |gs|
  {
    if gs != [] {
      assert gs == [gs[0]] + gs[1..];
      WidthAppend([gs[0]], gs[1..]);
      assert Width([gs[0]]) == gs[0].width;
      SegmentsWhenFits(gs[1..], areaWidth, counter + gs[0].width, cur + [gs[0]]);
      assert cur + [gs[0]] + gs[1..] == cur + gs;
    } else {
      assert cur + gs == cur;
    }
  }

  /**
   * A segment fits a line that already holds `start` cells: it is empty, or a
   * single grapheme wider than the area, or `start` plus its width is within
   * the area.
   */
  predicate FitsAfter(seg: Text, areaWidth: nat, start: nat)
  {
    seg == [] || (|seg| == 1 && seg[0].width > areaWidth) || start + Width(seg) <= areaWidth
  }

  /** Every segment fits its line: the first after `base` cells, every later one on a fresh line. */
  predicate AllFit(segs: seq<Text>, areaWidth: nat, base: nat)
  {
    forall k | 0 <= k < |segs| :: FitsAfter(segs[k], areaWidth, if k == 0 then base else 0)
  }

  lemma WidthSnoc(t: Text, g: Grapheme)
    ensures Width(t + [g]) == Width(t) + g.width
  {
    assert (t + [g])[..|t|] == t;
  }

  /**
   * Every segment fits its line: the first after the counter it started with
   * (`base` cells), every later one on a fresh line.
   */
  lemma {:induction false} SegmentsFit(gs: Text, areaWidth: nat, base: nat, cur: Text)
    requires FitsAfter(cur, areaWidth, base)
    ensures AllFit(Segments(gs, areaWidth, base + Width(cur), cur), areaWidth, base)
    decreases |gs|
  {
    if gs != [] {
      var g := gs[0];
      WidthSnoc(cur, g);
      if base + Width(cur) + g.width <= areaWidth {
        SegmentsFit(gs[1..], areaWidth, base, cur + [g]);
      } else {
        assert Width([g]) == g.width by { WidthSnoc([], g); }
        SegmentsFit(gs[1..], areaWidth, 0, [g]);
        AllFitCons(cur, Segments(gs[1..], areaWidth, g.width, [g]), areaWidth, base);
      }
    }
  }

  /** A segment that fits after `base`, in front of segments that fit on fresh lines. */
  lemma AllFitCons(cur: Text, rest: seq<Text>, areaWidth: nat, base: nat)
    requires FitsAfter(cur, areaWidth, base) && AllFit(rest, areaWidth, 0)
    ensures AllFit([cur] + rest, areaWidth, base)
  {
    assert forall k | 1 <= k < |rest| + 1 :: ([cur] + rest)[k] == rest[k - 1];
  }

  /**
   * Segment `k + 1` starts with the grapheme that took segment `k` past the
   * area width, where segment `k` started with `base` cells on its line if it
   * is the first and with 0 otherwise.
   */
  predicate OverflowsInto(segs: seq<Text>, k: nat, areaWidth: nat, base: nat)
    requires k + 1 < |segs|
  {
    segs[k + 1] != [] &&
    (if k == 0 then base else 0) + Width(segs[k]) + segs[k + 1][0].width > areaWidth
  }

  /** Every segment but the last is closed by the grapheme that starts the next one. */
  predicate Maximal(segs: seq<Text>, areaWidth: nat, base: nat)
  {
    forall k | 0 <= k && k + 1 < |segs| :: OverflowsInto(segs, k, areaWidth, base)
  }

  /**
   * Every segment is as long as it can be: the next segment starts with the
   * grapheme that would have taken the first line past the area width after
   * `base` cells, or a later line past it from 0.
   */
  lemma {:induction false} SegmentsMaximal(gs: Text, areaWidth: nat, base: nat, cur: Text)
    ensures Maximal(Segments(gs, areaWidth, base + Width(cur), cur), areaWidth, base)
    decreases |gs|
  {
    if gs != [] {
      var g := gs[0];
      WidthSnoc(cur, g);
      if base + Width(cur) + g.width <= areaWidth {
        SegmentsMaximal(gs[1..], areaWidth, base, cur + [g]);
        assert Segments(gs, areaWidth, base + Width(cur), cur)
            == Segments(gs[1..], areaWidth, base + Width(cur + [g]), cur + [g]);
      } else {
        SegmentsMaximal(gs[1..], areaWidth, 0, [g]);
        SegmentsMaximalBreak(gs, areaWidth, base, cur);
      }
    }
  }

  /** The step of `SegmentsMaximal` where the first grapheme does not fit and starts a new segment. */
  lemma SegmentsMaximalBreak(gs: Text, areaWidth: nat, base: nat, cur: Text)
    requires gs != [] && base + Width(cur) + gs[0].width > areaWidth
    requires Maximal(Segments(gs[1..], areaWidth, 0 + Width([gs[0]]), [gs[0]]), areaWidth, 0)
    ensures Maximal(Segments(gs, areaWidth, base + Width(cur), cur), areaWidth, base)
  {
    var g := gs[0];
    assert Width([g]) == g.width by { WidthSnoc([], g); }
    var rest := Segments(gs[1..], areaWidth, g.width, [g]);
    assert Segments(gs, areaWidth, base + Width(cur), cur) == [cur] + rest;
    MaximalCons(cur, rest, areaWidth, base);
  }

  /** A segment closed by the grapheme that starts a maximal run of segments makes a longer maximal run. */
  lemma MaximalCons(cur: Text, rest: seq<Text>, areaWidth: nat, base: nat)
    requires Maximal(rest, areaWidth, 0)
    requires |rest| > 0 && rest[0] != [] && base + Width(cur) + rest[0][0].width > areaWidth
    ensures Maximal([cur] + rest, areaWidth, base)
  {
    var segs := [cur] + rest;
    forall k | 0 <= k && k + 1 < |segs|
      ensures OverflowsInto(segs, k, areaWidth, base)
    {
      if k > 0 {
        assert OverflowsInto(rest, k - 1, areaWidth, 0);
        assert segs[k] == rest[k - 1] && segs[k + 1] == rest[k];
      }
    }
  }

  /// From segments to fragments

  /** Each segment as a span in `style`, each followed by a line break. */
  function Broken(segs: seq<Text>, style: Style): seq<Fragment>
  {
    if segs == [] then [] else [Span(TextSpan(segs[0], style)), Line] + Broken(segs[1..], style)
  }

  /** The segments as spans in `style` with a line break between consecutive ones. */
  function Joined(segs: seq<Text>, style: Style): seq<Fragment>
    requires |segs| >= 1
  {
    if |segs| == 1 then [Span(TextSpan(segs[0], style))]
    else [Span(TextSpan(segs[0], style)), Line] + Joined(segs[1..], style)
  }

  lemma {:induction false} BrokenSnoc(segs: seq<Text>, seg: Text, style: Style)
    ensures Broken(segs + [seg], style) == Broken(segs, style) + [Span(TextSpan(seg, style)), Line]
    decreases |segs|
  {
    if segs == [] {
      assert [seg][1..] == [];
    } else {
      assert (segs + [seg])[1..] == segs[1..] + [seg];
      BrokenSnoc(segs[1..], seg, style);
    }
  }

  /** The finished segments with line breaks after them, then the last segment, are the joined segments. */
  lemma {:induction false} BrokenThenLast(segs: seq<Text>, last: Text, style: Style)
    ensures Broken(segs, style) + [Span(TextSpan(last, style))] == Joined(segs + [last], style)
    decreases |segs|
  {
    if segs != [] {
      assert (segs + [last])[1..] == segs[1..] + [last];
      BrokenThenLast(segs[1..], last, style);
    }
  }

  /** The text of all spans among the fragments, in order. */
  function SpanContents(fs: seq<Fragment>): Text
  {
    if fs == [] then [] else (if fs[0].Span? then fs[0].span.content else []) + SpanContents(fs[1..])
  }

  /** The text of each span among the fragments, one entry per span. */
  function SpanTexts(fs: seq<Fragment>): seq<Text>
  {
    if fs == [] then [] else (if fs[0].Span? then [fs[0].span.content] else []) + SpanTexts(fs[1..])
  }

  /** Spans in `style` and line breaks alternate, starting and ending with a span. */
  predicate Alternates(fs: seq<Fragment>, style: Style)
  {
    |fs| >= 1 && fs[0].Span? && fs[0].span.style == style &&
    (|fs| == 1 || (|fs| >= 3 && fs[1] == Line && Alternates(fs[2..], style)))
  }

  /**
   * Joining segments gives span (line span)* with every span in the given
   * style, one span per segment in order, so the span texts put together
   * are the segments put together.
   */
  lemma {:induction false} JoinedShape(segs: seq<Text>, style: Style)
    requires |segs| >= 1
    ensures Alternates(Joined(segs, style), style)
    ensures SpanTexts(Joined(segs, style)) == segs
    ensures SpanContents(Joined(segs, style)) == Flatten(segs)
    decreases |segs|
  {
    var joined := Joined(segs, style);
    if |segs| == 1 {
      assert joined[1..] == [];
      assert segs[1..] == [];
    } else {
      JoinedShape(segs[1..], style);
      assert joined[2..] == Joined(segs[1..], style);
      assert joined[1..][1..] == joined[2..];
      assert segs == [segs[0]] + segs[1..];
    }
  }

  /**
   * The counter `wrap_span_letters` leaves behind: the old counter plus the
   * span's width when nothing was split; after a split, the final segment's
   * width counted twice when that segment starts past the span's first
   * grapheme, and once when the only split was before the first grapheme.
   */
  function SpanCounter(content: Text, areaWidth: nat, lineLength: nat): nat
  {
    var segs := Segments(content, areaWidth, lineLength, []);
    var last := segs[|segs| - 1];
    if |segs| == 1 then lineLength + Width(content)
    else if |last| < |content| then 2 * Width(last)
    else Width(last)
  }

  /**
   * No `u16` addition of the grapheme loop overflows: from `counter` on, each
   * running counter plus the next grapheme's width stays within `u16`, the
   * counter restarting at the grapheme's width where the line is cut.
   */
  predicate LoopFits(gs: Text, areaWidth: nat, counter: nat)
    decreases |gs|
  {
    gs == [] ||
    (var c := counter + gs[0].width;
     c <= U16_MAX && LoopFits(gs[1..], areaWidth, if c <= areaWidth then c else gs[0].width))
  }

  /** No `u16` addition of `wrap_span_letters` overflows: the loop's, and the final `+= segment.width()`. */
  predicate SpanFits(content: Text, areaWidth: nat, lineLength: nat)
  {
    LoopFits(content, areaWidth, lineLength) && SpanCounter(content, areaWidth, lineLength) <= U16_MAX
  }

  /** The grapheme loop's additions fit from grapheme `pos` on, given the counter before it. */
  lemma LoopFitsStep(gs: Text, areaWidth: nat, counter: nat, pos: nat)
    requires pos < |gs| && LoopFits(gs[pos..], areaWidth, counter)
    ensures counter + gs[pos].width <= U16_MAX
    ensures var c := counter + gs[pos].width;
            LoopFits(gs[pos + 1..], areaWidth, if c <= areaWidth then c else gs[pos].width)
  {
    assert gs[pos..][0] == gs[pos];
    assert gs[pos..][1..] == gs[pos + 1..];
  }

  /**
   * Where `wrap_span_letters` stands before grapheme `pos`: `done` are the
   * finished segments, the current one starts at `segStart`, and the rest of
   * the reference wrap is still to come.
   */
  ghost predicate WrapState(gs: Text, areaWidth: nat, lineLength: nat, done: seq<Text>, segStart: nat, pos: nat, counter: nat)
  {
    segStart <= pos <= |gs| &&
    (done == [] ==> segStart == 0) &&
    counter == (if done == [] then lineLength else 0) + Width(gs[segStart..pos]) &&
    done + Segments(gs[pos..], areaWidth, counter, gs[segStart..pos]) == Segments(gs, areaWidth, lineLength, [])
  }

  lemma WrapStart(gs: Text, areaWidth: nat, lineLength: nat)
    ensures WrapState(gs, areaWidth, lineLength, [], 0, 0, lineLength)
  {
    assert gs[0..] == gs;
  }

  lemma WrapStepBound(gs: Text, lineLength: nat, done: seq<Text>, segStart: nat, pos: nat, counter: nat)
    requires segStart <= pos < |gs|
    requires counter == (if done == [] then lineLength else 0) + Width(gs[segStart..pos])
    ensures counter + gs[pos].width <= lineLength + Width(gs)
  {
    WidthSliceStep(gs, segStart, pos);
  }

  /** A slice and the grapheme after it are no wider than the whole text. */
  lemma WidthSliceStep(gs: Text, i: nat, j: nat)
    requires i <= j < |gs|
    ensures Width(gs[i..j]) + gs[j].width <= Width(gs)
  {
    SliceSnoc(gs, i, j);
    WidthSnoc(gs[i..j], gs[j]);
    WidthSlice(gs, i, j + 1);
  }

  lemma SliceSnoc<T>(s: seq<T>, i: nat, j: nat)
    requires i <= j < |s|
    ensures s[i..j + 1] == s[i..j] + [s[j]]
  {
  }

  /** One grapheme of the reference wrap: it joins the current segment or starts the next. */
  lemma SegmentsStep(gs: Text, areaWidth: nat, counter: nat, segStart: nat, pos: nat)
    requires segStart <= pos < |gs|
    ensures var g := gs[pos];
            Segments(gs[pos..], areaWidth, counter, gs[segStart..pos]) ==
              if counter + g.width <= areaWidth
              then Segments(gs[pos + 1..], areaWidth, counter + g.width, gs[segStart..pos + 1])
              else [gs[segStart..pos]] + Segments(gs[pos + 1..], areaWidth, g.width, gs[pos..pos + 1])
  {
    assert gs[pos..][1..] == gs[pos + 1..];
    assert gs[pos..][0] == gs[pos];
    assert gs[segStart..pos + 1] == gs[segStart..pos] + [gs[pos]];
    assert gs[pos..pos + 1] == [gs[pos]];
  }

  lemma WrapStep(gs: Text, areaWidth: nat, lineLength: nat, done: seq<Text>, segStart: nat, pos: nat, counter: nat)
    requires WrapState(gs, areaWidth, lineLength, done, segStart, pos, counter)
    requires pos < |gs|
    ensures counter + gs[pos].width <= lineLength + Width(gs)
    ensures counter + gs[pos].width <= areaWidth ==>
              WrapState(gs, areaWidth, lineLength, done, segStart, pos + 1, counter + gs[pos].width)
    ensures counter + gs[pos].width > areaWidth ==>
              WrapState(gs, areaWidth, lineLength, done + [gs[segStart..pos]], pos, pos + 1, gs[pos].width)
  {
    WrapStepBound(gs, lineLength, done, segStart, pos, counter);
    if counter + gs[pos].width <= areaWidth {
      WrapStepFits(gs, areaWidth, lineLength, done, segStart, pos, counter);
    } else {
      WrapStepSplits(gs, areaWidth, lineLength, done, segStart, pos, counter);
    }
  }

  /** A grapheme that fits joins the current segment. */
  lemma WrapStepFits(gs: Text, areaWidth: nat, lineLength: nat, done: seq<Text>, segStart: nat, pos: nat, counter: nat)
    requires WrapState(gs, areaWidth, lineLength, done, segStart, pos, counter)
    requires pos < |gs| && counter + gs[pos].width <= areaWidth
    ensures WrapState(gs, areaWidth, lineLength, done, segStart, pos + 1, counter + gs[pos].width)
  {
    var g := gs[pos];
    SegmentsStep(gs, areaWidth, counter, segStart, pos);
    assert gs[segStart..pos + 1] == gs[segStart..pos] + [g];
    WidthSnoc(gs[segStart..pos], g);
  }

  /** A grapheme that overflows closes the current segment and starts the next one. */
  lemma WrapStepSplits(gs: Text, areaWidth: nat, lineLength: nat, done: seq<Text>, segStart: nat, pos: nat, counter: nat)
    requires WrapState(gs, areaWidth, lineLength, done, segStart, pos, counter)
    requires pos < |gs| && counter + gs[pos].width > areaWidth
    ensures WrapState(gs, areaWidth, lineLength, done + [gs[segStart..pos]], pos, pos + 1, gs[pos].width)
  {
    var g := gs[pos];
    var tail := Segments(gs[pos + 1..], areaWidth, g.width, gs[pos..pos + 1]);
    SegmentsStep(gs, areaWidth, counter, segStart, pos);
    assert gs[pos..pos + 1] == [g];
    WidthSnoc([], g);
    assert (done + [gs[segStart..pos]]) + tail == done + ([gs[segStart..pos]] + tail);
  }

  lemma WrapFinish(gs: Text, areaWidth: nat, lineLength: nat, done: seq<Text>, segStart: nat, counter: nat)
    requires WrapState(gs, areaWidth, lineLength, done, segStart, |gs|, counter)
    ensures Segments(gs, areaWidth, lineLength, []) == done + [gs[segStart..]]
    ensures Width(gs[segStart..]) <= Width(gs)
    ensures SpanCounter(gs, areaWidth, lineLength) ==
              if segStart > 0 then counter + Width(gs[segStart..]) else counter
  {
    assert gs[|gs|..] == [];
    assert gs[segStart..|gs|] == gs[segStart..];
    assert gs[0..] == gs;
    WidthSlice(gs, segStart, |gs|);
  }

  /**
   * `wrap_span_letters`: the span cut into segments with line breaks between
   * them. The counter is passed in and the updated counter returned, standing
   * for the source's `&mut u16`.
   */
  method WrapSpanLetters(span: TextSpan, areaWidth: nat, lineLength: nat) returns (results: seq<Fragment>, newLength: nat)
    requires SpanFits(span.content, areaWidth, lineLength)
    ensures results == Joined(Segments(span.content, areaWidth, lineLength, []), span.style)
    ensures newLength == SpanCounter(span.content, areaWidth, lineLength)
    ensures Alternates(results, span.style)
    ensures SpanTexts(results) == Segments(span.content, areaWidth, lineLength, [])
    ensures SpanContents(results) == span.content
    ensures lineLength + Width(span.content) <= areaWidth ==>
              results == [Span(span)] && newLength == lineLength + Width(span.content)
  {
    var graphemes := span.content;
    ghost var done: seq<Text>;
    var segmentStart: nat, counter: nat;
    results, done, segmentStart, counter := WrapLoop(graphemes, areaWidth, lineLength, span.style);

    var segment := graphemes[segmentStart..];
    WrapFinish(graphemes, areaWidth, lineLength, done, segmentStart, counter);
    BrokenThenLast(done, segment, span.style);

    if segmentStart > 0 {
      counter := counter + Width(segment);
      assert counter <= U16_MAX;
    }

    results := results + [Span(TextSpan(segment, span.style))];
    newLength := counter;

    JoinedShape(done + [segment], span.style);
    SegmentsCover(graphemes, areaWidth, lineLength, []);
    if lineLength + Width(graphemes) <= areaWidth {
      SegmentsWhenFits(graphemes, areaWidth, lineLength, []);
    }
  }

  /**
   * The grapheme loop of `wrap_span_letters`: every segment closed by an
   * overflowing grapheme, each followed by a line break, and the start and
   * counter of the segment still open.
   */
  method WrapLoop(graphemes: Text, areaWidth: nat, lineLength: nat, style: Style)
    returns (results: seq<Fragment>, ghost done: seq<Text>, segmentStart: nat, counter: nat)
    requires LoopFits(graphemes, areaWidth, lineLength)
    ensures WrapState(graphemes, areaWidth, lineLength, done, segmentStart, |graphemes|, counter)
    ensures results == Broken(done, style)
  {
    done := [];
    results := [];
    segmentStart := 0;
    counter := lineLength;
    WrapStart(graphemes, areaWidth, lineLength);
    assert graphemes[0..] == graphemes;

    for pos := 0 to |graphemes|
      invariant LoopState(graphemes, areaWidth, lineLength, done, segmentStart, pos, counter)
      invariant results == Broken(done, style)
    {
      results, done, segmentStart, counter :=
        WrapAdvance(graphemes, areaWidth, lineLength, style, results, done, segmentStart, pos, counter);
    }
  }

  /** One pass of the grapheme loop: add the grapheme to the line, or cut the line before it. */
  method WrapAdvance(graphemes: Text, areaWidth: nat, lineLength: nat, style: Style,
                     results: seq<Fragment>, ghost done: seq<Text>, segmentStart: nat, pos: nat, counter: nat)
    returns (results': seq<Fragment>, ghost done': seq<Text>, segmentStart': nat, counter': nat)
    requires LoopState(graphemes, areaWidth, lineLength, done, segmentStart, pos, counter) && pos < |graphemes|
    requires results == Broken(done, style)
    ensures LoopState(graphemes, areaWidth, lineLength, done', segmentStart', pos + 1, counter')
    ensures results' == Broken(done', style)
    ensures counter' == (if counter + graphemes[pos].width <= areaWidth then counter + graphemes[pos].width
                         else graphemes[pos].width)
  {
    var ch := graphemes[pos];
    var chWidth := ch.width;
    LoopAdvance(graphemes, areaWidth, lineLength, done, segmentStart, pos, counter);
    counter' := counter + chWidth;
    assert counter' <= U16_MAX;
    results', done', segmentStart' := results, done, segmentStart;

    if counter' <= areaWidth {
      return;
    }

    BrokenSnoc(done, graphemes[segmentStart..pos], style);
    results' := results + [Span(TextSpan(graphemes[segmentStart..pos], style)), Line];
    done' := done + [graphemes[segmentStart..pos]];

    segmentStart' := pos;
    counter' := chWidth;
  }

  /** The loop's state before grapheme `pos`, and no overflow ahead. */
  ghost predicate LoopState(gs: Text, areaWidth: nat, lineLength: nat, done: seq<Text>, segStart: nat, pos: nat, counter: nat)
  {
    WrapState(gs, areaWidth, lineLength, done, segStart, pos, counter) &&
    pos <= |gs| && LoopFits(gs[pos..], areaWidth, counter)
  }

  /** One pass of the grapheme loop keeps its state, with the line cut where the grapheme overflows. */
  lemma LoopAdvance(gs: Text, areaWidth: nat, lineLength: nat, done: seq<Text>, segStart: nat, pos: nat, counter: nat)
    requires LoopState(gs, areaWidth, lineLength, done, segStart, pos, counter) && pos < |gs|
    ensures counter + gs[pos].width <= U16_MAX
    ensures counter + gs[pos].width <= areaWidth ==>
              LoopState(gs, areaWidth, lineLength, done, segStart, pos + 1, counter + gs[pos].width)
    ensures counter + gs[pos].width > areaWidth ==>
              LoopState(gs, areaWidth, lineLength, done + [gs[segStart..pos]], pos, pos + 1, gs[pos].width)
  {
    WrapStep(gs, areaWidth, lineLength, done, segStart, pos, counter);
    LoopFitsStep(gs, areaWidth, counter, pos);
  }

  /** The last segment is a suffix of the span, so no wider than it. */
  lemma LastSegmentNarrower(content: Text, areaWidth: nat, lineLength: nat)
    ensures var segs := Segments(content, areaWidth, lineLength, []);
            Width(segs[|segs| - 1]) <= Width(content)
  {
    var segs := Segments(content, areaWidth, lineLength, []);
    var init, last := segs[..|segs| - 1], segs[|segs| - 1];
    SegmentsCover(content, areaWidth, lineLength, []);
    assert segs == init + [last];
    FlattenSnoc(init, last);
    assert content == Flatten(init) + last;
    WidthAppend(Flatten(init), last);
  }

  /// Wrapping a fragment sequence

  /** The counter after fragment `f`: spans as above, characters and line breaks add their length. */
  function CounterAfter(f: Fragment, areaWidth: nat, counter: nat): nat
  {
    if f.Span? then SpanCounter(f.span.content, areaWidth, counter) else counter + Len(f)
  }

  /** What fragment `f` becomes: a span is wrapped, anything else passes through. */
  function Chunk(f: Fragment, areaWidth: nat, counter: nat): seq<Fragment>
  {
    if f.Span? then Joined(Segments(f.span.content, areaWidth, counter, []), f.span.style) else [f]
  }

  /** No `u16` addition `by_letters` makes on fragment `f` overflows, given the counter before it. */
  predicate StepFits(f: Fragment, areaWidth: nat, counter: nat)
  {
    if f.Span? then SpanFits(f.span.content, areaWidth, counter) else counter + Len(f) <= U16_MAX
  }

  /** No `u16` addition of `by_letters` overflows, with the counter threaded from fragment to fragment. */
  predicate LettersFit(fs: seq<Fragment>, areaWidth: nat, counter: nat)
    decreases |fs|
  {
    fs == [] ||
    (StepFits(fs[0], areaWidth, counter) && LettersFit(fs[1..], areaWidth, CounterAfter(fs[0], areaWidth, counter)))
  }

  /** What each fragment becomes, with the counter threaded from one to the next. */
  function Chunks(fs: seq<Fragment>, areaWidth: nat, counter: nat): (r: seq<seq<Fragment>>)
    ensures |r| == |fs|
    decreases |fs|
  {
    if fs == [] then []
    else [Chunk(fs[0], areaWidth, counter)] + Chunks(fs[1..], areaWidth, CounterAfter(fs[0], areaWidth, counter))
  }

  function Flat(chunks: seq<seq<Fragment>>): seq<Fragment>
  {
    if chunks == [] then [] else chunks[0] + Flat(chunks[1..])
  }

  lemma ByLettersStep(fs: seq<Fragment>, areaWidth: nat, i: nat, counter: nat)
    requires i < |fs|
    requires LettersFit(fs[i..], areaWidth, counter)
    ensures Flat(Chunks(fs[i..], areaWidth, counter)) ==
              Chunk(fs[i], areaWidth, counter) + Flat(Chunks(fs[i + 1..], areaWidth, CounterAfter(fs[i], areaWidth, counter)))
    ensures StepFits(fs[i], areaWidth, counter)
    ensures LettersFit(fs[i + 1..], areaWidth, CounterAfter(fs[i], areaWidth, counter))
  {
    ByLettersUnfold(fs, areaWidth, i, counter);
    assert fs[i..][0] == fs[i];
    assert fs[i..][1..] == fs[i + 1..];
  }

  /** The chunks from fragment `i` on: fragment `i`'s chunk, then the chunks after it. */
  lemma ByLettersUnfold(fs: seq<Fragment>, areaWidth: nat, i: nat, counter: nat)
    requires i < |fs|
    ensures Flat(Chunks(fs[i..], areaWidth, counter)) ==
              Chunk(fs[i], areaWidth, counter) + Flat(Chunks(fs[i + 1..], areaWidth, CounterAfter(fs[i], areaWidth, counter)))
  {
    assert fs[i..][1..] == fs[i + 1..];
    var chunk := Chunk(fs[i], areaWidth, counter);
    var later := Chunks(fs[i + 1..], areaWidth, CounterAfter(fs[i], areaWidth, counter));
    assert Chunks(fs[i..], areaWidth, counter) == [chunk] + later;
    assert ([chunk] + later)[1..] == later;
  }

  /** One fragment moves the counter on by at most twice its length. */
  lemma CounterAfterBound(f: Fragment, areaWidth: nat, counter: nat)
    ensures CounterAfter(f, areaWidth, counter) <= counter + 2 * Len(f)
  {
    if f.Span? {
      LastSegmentNarrower(f.span.content, areaWidth, counter);
    }
  }

  lemma ByLettersEnd(fs: seq<Fragment>, areaWidth: nat, counter: nat)
    ensures Flat(Chunks(fs[|fs|..], areaWidth, counter)) == []
  {
    assert fs[|fs|..] == [];
  }

  /** `by_letters`: every span wrapped in turn, with one counter running across all fragments. */
  method ByLetters(fragments: seq<Fragment>, areaWidth: nat) returns (results: seq<Fragment>)
    requires LettersFit(fragments, areaWidth, 0)
    ensures results == Flat(Chunks(fragments, areaWidth, 0))
  {
    results := [];
    var lineLength: nat := 0;
    assert fragments[0..] == fragments;

    for i := 0 to |fragments|
      invariant LettersFit(fragments[i..], areaWidth, lineLength)
      invariant results + Flat(Chunks(fragments[i..], areaWidth, lineLength)) == Flat(Chunks(fragments, areaWidth, 0))
    {
      var fragment := fragments[i];
      ByLettersStep(fragments, areaWidth, i, lineLength);
      ghost var before := lineLength;
      ghost var later := Flat(Chunks(fragments[i + 1..], areaWidth, CounterAfter(fragment, areaWidth, lineLength)));

      var chunk: seq<Fragment>;
      match fragment {
        case Span(span) =>
          var wrapped, newLength := WrapSpanLetters(span, areaWidth, lineLength);
          chunk := wrapped;
          lineLength := newLength;
        case _ =>
          assert lineLength + Len(fragment) <= U16_MAX;
          lineLength := lineLength + Len(fragment);
          chunk := [fragment];
      }

      assert chunk == Chunk(fragment, areaWidth, before) && lineLength == CounterAfter(fragment, areaWidth, before);
      AppendAssoc(results, chunk, later);
      results := results + chunk;
    }
    ByLettersEnd(fragments, areaWidth, lineLength);
  }

  lemma AppendAssoc<T>(a: seq<T>, b: seq<T>, c: seq<T>)
    ensures a + (b + c) == (a + b) + c
  {
  }

  /// When the counter fits

  /** Every grapheme is at most `areaWidth` wide. */
  predicate Narrow(gs: Text, areaWidth: nat)
  {
    forall j | 0 <= j < |gs| :: gs[j].width <= areaWidth
  }

  lemma NarrowTail(gs: Text, areaWidth: nat)
    requires gs != [] && Narrow(gs, areaWidth)
    ensures Narrow(gs[1..], areaWidth) && gs[0].width <= areaWidth
  {
    assert forall j | 0 <= j < |gs| - 1 :: gs[1..][j] == gs[j + 1];
  }

  /**
   * With graphemes no wider than the area, an unsplit span fits after its
   * counter, and the last segment of a split one fits a line.
   */
  lemma {:induction false} SegmentsLastWithin(gs: Text, areaWidth: nat, counter: nat, cur: Text)
    requires Narrow(gs, areaWidth)
    ensures var segs := Segments(gs, areaWidth, counter, cur);
            && (|segs| == 1 ==> gs == [] || counter + Width(gs) <= areaWidth)
            && (|segs| > 1 ==> Width(segs[|segs| - 1]) <= areaWidth)
    decreases |gs|
  {
    if gs != [] {
      var g := gs[0];
      NarrowTail(gs, areaWidth);
      assert gs == [g] + gs[1..];
      WidthAppend([g], gs[1..]);
      assert Width([g]) == g.width by { WidthSnoc([], g); }
      var c := counter + g.width;
      if c <= areaWidth {
        SegmentsLastWithin(gs[1..], areaWidth, c, cur + [g]);
      } else {
        var rest := Segments(gs[1..], areaWidth, g.width, [g]);
        SegmentsLastWithin(gs[1..], areaWidth, g.width, [g]);
        assert Segments(gs, areaWidth, counter, cur) == [cur] + rest;
        if |rest| == 1 {
          SegmentsCover(gs[1..], areaWidth, g.width, [g]);
          assert Flatten(rest) == rest[0] + Flatten(rest[1..]);
          assert rest[1..] == [];
          assert rest[0] == [g] + gs[1..];
        }
      }
    }
  }

  /** With a counter within twice the area width, the loop's additions stay within three times it. */
  lemma {:induction false} LoopFitsNarrow(gs: Text, areaWidth: nat, counter: nat)
    requires Narrow(gs, areaWidth) && counter <= 2 * areaWidth && 3 * areaWidth <= U16_MAX
    ensures LoopFits(gs, areaWidth, counter)
    decreases |gs|
  {
    if gs != [] {
      NarrowTail(gs, areaWidth);
      var c := counter + gs[0].width;
      LoopFitsNarrow(gs[1..], areaWidth, if c <= areaWidth then c else gs[0].width);
    }
  }

  /**
   * A span of graphemes no wider than the area never overflows the counter
   * when three area widths fit in `u16`, however long the span: the counter
   * it leaves is within twice the area width.
   */
  lemma NarrowSpanFits(content: Text, areaWidth: nat, lineLength: nat)
    requires Narrow(content, areaWidth) && lineLength <= 2 * areaWidth && 3 * areaWidth <= U16_MAX
    ensures SpanFits(content, areaWidth, lineLength)
    ensures SpanCounter(content, areaWidth, lineLength) <= 2 * areaWidth
  {
    LoopFitsNarrow(content, areaWidth, lineLength);
    SegmentsLastWithin(content, areaWidth, lineLength, []);
  }

  /** A fragment `by_letters` keeps within the counter bound: a span of narrow graphemes, or a line break. */
  predicate NarrowFragment(f: Fragment, areaWidth: nat)
  {
    match f
    case Span(span) => Narrow(span.content, areaWidth)
    case Char(_, _) => false
    case Line => true
  }

  /**
   * Spans of graphemes no wider than the area, and line breaks, never
   * overflow the counter of `by_letters` when three area widths fit in `u16`,
   * whatever their total length.
   */
  lemma {:induction false} NarrowLettersFit(fs: seq<Fragment>, areaWidth: nat, counter: nat)
    requires forall i | 0 <= i < |fs| :: NarrowFragment(fs[i], areaWidth)
    requires counter <= 2 * areaWidth && 3 * areaWidth <= U16_MAX
    ensures LettersFit(fs, areaWidth, counter)
    decreases |fs|
  {
    if fs != [] {
      var f := fs[0];
      if f.Span? {
        NarrowSpanFits(f.span.content, areaWidth, counter);
      }
      assert forall i | 0 <= i < |fs| - 1 :: fs[1..][i] == fs[i + 1];
      NarrowLettersFit(fs[1..], areaWidth, CounterAfter(f, areaWidth, counter));
    }
  }

  /// Properties of the wrap

  /** What a wrapped chunk stands for: its spans merged back into one, or the fragment itself. */
  function Unwrap(chunk: seq<Fragment>): Fragment
    requires |chunk| >= 1
  {
    if chunk[0].Span? then Span(TextSpan(SpanContents(chunk), chunk[0].span.style)) else chunk[0]
  }

  /**
   * Each fragment becomes one chunk: a span becomes spans in its own style
   * separated by line breaks whose texts put together are its text, anything
   * else is passed through alone; so removing the inserted breaks and merging
   * each chunk's spans gives back the input.
   */
  lemma {:induction false} ChunksUnwrap(fs: seq<Fragment>, areaWidth: nat, counter: nat)
    ensures forall i | 0 <= i < |fs| ::
              var chunk := Chunks(fs, areaWidth, counter)[i];
              (if fs[i].Span? then Alternates(chunk, fs[i].span.style) else chunk == [fs[i]]) &&
              Unwrap(chunk) == fs[i]
    decreases |fs|
  {
    if fs != [] {
      var f := fs[0];
      var next := CounterAfter(f, areaWidth, counter);
      var chunks := Chunks(fs, areaWidth, counter);
      ChunksUnwrap(fs[1..], areaWidth, next);
      if f.Span? {
        var segs := Segments(f.span.content, areaWidth, counter, []);
        JoinedShape(segs, f.span.style);
        SegmentsCover(f.span.content, areaWidth, counter, []);
      }
      forall i | 1 <= i < |fs|
        ensures chunks[i] == Chunks(fs[1..], areaWidth, next)[i - 1] && fs[i] == fs[1..][i - 1]
      {
      }
    }
  }

  /** Spans and line breaks alone: the total length is the width of the span texts. */
  lemma {:induction false} AlternatesLen(fs: seq<Fragment>, style: Style)
    requires Alternates(fs, style)
    ensures TotalLen(fs) == Width(SpanContents(fs))
    decreases |fs|
  {
    var head := fs[0];
    if |fs| == 1 {
      assert fs[..0] == [];
      assert fs[1..] == [];
      assert head.span.content + [] == head.span.content;
    } else {
      AlternatesLen(fs[2..], style);
      assert fs == [head, Line] + fs[2..];
      TotalLenAppend([head, Line], fs[2..]);
      assert [head, Line][..1] == [head] && [head][..0] == [];
      assert fs[1..][1..] == fs[2..];
      assert fs[1..][0] == Line;
      assert SpanContents(fs[1..]) == [] + SpanContents(fs[2..]);
      assert TotalLen([head, Line]) == TotalLen([head]) + Len(Line);
      WidthAppend(head.span.content, SpanContents(fs[2..]));
      assert TotalLen([head]) == Width(head.span.content);
      assert SpanContents(fs) == head.span.content + SpanContents(fs[2..]);
      assert TotalLen(fs) == Width(head.span.content) + TotalLen(fs[2..]);
    }
  }

  lemma FlatCons(chunk: seq<Fragment>, rest: seq<seq<Fragment>>)
    ensures Flat([chunk] + rest) == chunk + Flat(rest)
  {
    assert ([chunk] + rest)[1..] == rest;
  }

  /** Wrapping only inserts zero-length line breaks: the total length is unchanged. */
  lemma {:induction false} ByLettersKeepsLength(fs: seq<Fragment>, areaWidth: nat, counter: nat)
    ensures TotalLen(Flat(Chunks(fs, areaWidth, counter))) == TotalLen(fs)
    decreases |fs|
  {
    if fs != [] {
      var f := fs[0];
      var chunk := Chunk(f, areaWidth, counter);
      var rest := Chunks(fs[1..], areaWidth, CounterAfter(f, areaWidth, counter));
      ByLettersKeepsLength(fs[1..], areaWidth, CounterAfter(f, areaWidth, counter));
      FlatCons(chunk, rest);
      TotalLenAppend(chunk, Flat(rest));
      assert fs == [f] + fs[1..];
      TotalLenAppend([f], fs[1..]);
      assert [f][..0] == [];
      if f.Span? {
        var segs := Segments(f.span.content, areaWidth, counter, []);
        JoinedShape(segs, f.span.style);
        SegmentsCover(f.span.content, areaWidth, counter, []);
        assert [] + f.span.content == f.span.content;
        AlternatesLen(chunk, f.span.style);
      } else {
        assert chunk[..0] == [];
      }
    }
  }

  /** When everything fits on the line after the counter, wrapping changes nothing. */
  lemma {:induction false} ByLettersWhenFits(fs: seq<Fragment>, areaWidth: nat, counter: nat)
    requires counter + TotalLen(fs) <= areaWidth
    ensures Flat(Chunks(fs, areaWidth, counter)) == fs
    decreases |fs|
  {
    if fs != [] {
      var f := fs[0];
      assert fs == [f] + fs[1..];
      TotalLenAppend([f], fs[1..]);
      assert [f][..0] == [];
      if f.Span? {
        SegmentsWhenFits(f.span.content, areaWidth, counter, []);
        assert [] + f.span.content == f.span.content;
        assert Chunk(f, areaWidth, counter) == [f];
      }
      var next := CounterAfter(f, areaWidth, counter);
      assert next == counter + Len(f);
      ByLettersWhenFits(fs[1..], areaWidth, next);
      FlatCons(Chunk(f, areaWidth, counter), Chunks(fs[1..], areaWidth, next));
    }
  }

  /**
   * The counter is not reset by a line break: wrapping "ab", a break and
   * "cd" to width 3 still splits "cd", as the counter stands at 2 after the
   * break.
   */
  lemma LineKeepsCounter(style: Style)
    ensures var a, b, c, d := Grapheme("a", 1, 1), Grapheme("b", 1, 1), Grapheme("c", 1, 1), Grapheme("d", 1, 1);
            Flat(Chunks([Span(TextSpan([a, b], style)), Line, Span(TextSpan([c, d], style))], 3, 0)) ==
              [Span(TextSpan([a, b], style)), Line, Span(TextSpan([c], style)), Line, Span(TextSpan([d], style))]
  {
    var a, b, c, d := Grapheme("a", 1, 1), Grapheme("b", 1, 1), Grapheme("c", 1, 1), Grapheme("d", 1, 1);
    var ab, cd := TextSpan([a, b], style), TextSpan([c, d], style);
    assert [a, b][..1] == [a] && [a][..0] == [];
    assert Width([a]) == 1;
    assert Width([a, b]) == 2;
    SegmentsWhenFits([a, b], 3, 0, []);
    assert [] + [a, b] == [a, b];
    assert SpanCounter([a, b], 3, 0) == 2;
    assert [c, d][1..] == [d] && [d][1..] == [];
    assert [] + [c] == [c];
    assert Segments([d], 3, 3, [c]) == [[c], [d]];
    assert Segments([c, d], 3, 2, []) == [[c], [d]];
    var fs := [Span(ab), Line, Span(cd)];
    assert fs[1..] == [Line, Span(cd)] && fs[1..][1..] == [Span(cd)] && fs[1..][1..][1..] == [];
    assert Chunk(Span(ab), 3, 0) == [Span(ab)];
    assert Chunks([Span(cd)], 3, 2) == [Joined([[c], [d]], style)];
    assert Chunks([Line, Span(cd)], 3, 2) == [[Line]] + Chunks([Span(cd)], 3, 2);
    var chunks := Chunks(fs, 3, 0);
    assert chunks == [[Span(ab)]] + Chunks([Line, Span(cd)], 3, 2);
    assert chunks == [[Span(ab)], [Line], Joined([[c], [d]], style)];
    FlatCons(chunks[0], chunks[1..]);
    FlatCons(chunks[1], chunks[2..]);
    FlatCons(chunks[2], []);
  }
}
