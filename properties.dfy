/*
 * What a render of hw/display/framebuffer.c promises its caller, proved
 * about the specification functions Render and RenderSwap (and so, through
 * the methods' postconditions, about UpdateDisplay and
 * UpdateDisplaySwapPixman): which rows are handed to the row transform,
 * the span reported through first_row/last_row, when and where the dirty
 * bitmap is reset, that every mapping and the region reference are
 * released, and where each drawn row lands.
 */
module RenderProperties {
  import opened DirtyScan
  import opened FramebufferSwap
  import opened FramebufferUpdate

  // ---------------------------------------------------------------------
  // Facts about the parts of a successful render's log

  lemma {:induction false} CountNone(log: seq<Call>, p: Call -> bool)
    requires forall k :: 0 <= k < |log| ==> !p(log[k])
    ensures Count(log, p) == 0
  {
    if log != [] {
      CountNone(log[1..], p);
    }
  }

  /** A log of one call. */
  lemma Single(c: Call, p: Call -> bool, d: set<int>)
    ensures Count([c], p) == if p(c) then 1 else 0
    ensures RenderedRows([c]) == if c.Draw? || c.LinebufCopy? then [c.row] else []
    ensures DirtyAfter(d, [c]) == if c.ResetDirty? then Cleared(d, c.offset, c.len) else d
  {
    assert [c][1..] == [];
  }

  lemma {:induction false} RenderedNone(log: seq<Call>)
    requires forall k :: 0 <= k < |log| ==> !log[k].Draw? && !log[k].LinebufCopy?
    ensures RenderedRows(log) == []
  {
    if log != [] {
      RenderedNone(log[1..]);
    }
  }

  lemma {:induction false} RenderedDraws(g: Geometry, rows: seq<int>)
    ensures RenderedRows(DrawsOf(g, rows)) == rows
    decreases |rows|
  {
    if rows != [] {
      var init, x := rows[..|rows| - 1], rows[|rows| - 1];
      assert rows == init + [x];
      var c := Draw(x, DestOffset(g, x), Advance(x, g.srcWidth), g.cols, g.colPitch);
      DrawsOfSnoc(g, init, x);
      RenderedDraws(g, init);
      RenderedRowsConcat(DrawsOf(g, init), [c]);
      assert [c][1..] == [];
    } else {
      assert DrawsOf(g, rows) == [];
    }
  }

  lemma {:induction false} RenderedCopies(mode: SwapMode, block: seq<bv8>, w: int, rows: int, lineStride: int,
                                          drawn: seq<int>)
    requires mode != SwapNone && 0 <= lineStride <= w && lineStride % 4 == 0 && |block| == Advance(rows, w)
    requires forall k :: 0 <= k < |drawn| ==> 0 <= drawn[k] < rows
    ensures RenderedRows(CopiesOf(mode, block, w, rows, lineStride, drawn)) == drawn
    decreases |drawn|
  {
    if drawn != [] {
      var init, x := drawn[..|drawn| - 1], drawn[|drawn| - 1];
      assert drawn == init + [x];
      var c := LinebufCopy(x, LineOf(mode, block, w, rows, lineStride, x));
      CopiesOfSnoc(mode, block, w, rows, lineStride, init, x);
      RenderedCopies(mode, block, w, rows, lineStride, init);
      RenderedRowsConcat(CopiesOf(mode, block, w, rows, lineStride, init), [c]);
      assert [c][1..] == [];
    } else {
      assert CopiesOf(mode, block, w, rows, lineStride, drawn) == [];
    }
  }

  /** What every scanned log hands to Finish: the rendered rows, one unmap,
      no reset and no unref. */
  predicate ScannedLog(scanned: seq<Call>, rows: seq<int>)
  {
    && RenderedRows(scanned) == rows
    && Count(scanned, IsUnmap) == 1 && Count(scanned, IsReset) == 0 && Count(scanned, IsUnref) == 0
  }

  /** A log none of whose calls renders a row, unmaps, resets or unrefs. */
  predicate Quiet(log: seq<Call>)
  {
    && RenderedRows(log) == []
    && Count(log, IsUnmap) == 0 && Count(log, IsReset) == 0 && Count(log, IsUnref) == 0
  }

  lemma QuietCalls(log: seq<Call>)
    requires forall k :: 0 <= k < |log| ==> !log[k].Draw? && !log[k].LinebufCopy? && !log[k].Unmap? && !log[k].ResetDirty? && !log[k].Unref?
    ensures Quiet(log)
  {
    RenderedNone(log);
    CountNone(log, IsUnmap);
    CountNone(log, IsReset);
    CountNone(log, IsUnref);
  }

  /** A scanned log is the calls before the loop, the loop's calls and the
      calls after it, the last of which unmaps. */
  lemma Sandwich(a: seq<Call>, mid: seq<Call>, b: seq<Call>, rows: seq<int>)
    requires Quiet(a) && b != [] && Quiet(b[..|b| - 1]) && b[|b| - 1].Unmap?
    requires forall k :: 0 <= k < |mid| ==> mid[k].Draw? || mid[k].LinebufCopy?
    requires RenderedRows(mid) == rows
    ensures ScannedLog(a + mid + b, rows)
  {
    EndsWithUnmap(b);
    CountAround(a, mid, b, IsUnmap);
    CountAround(a, mid, b, IsReset);
    CountAround(a, mid, b, IsUnref);
    RenderedRowsConcat(a, mid);
    RenderedRowsConcat(a + mid, b);
  }

  /** The calls after the loop: quiet ones, then the unmap. */
  lemma EndsWithUnmap(b: seq<Call>)
    requires b != [] && Quiet(b[..|b| - 1]) && b[|b| - 1].Unmap?
    ensures RenderedRows(b) == [] && Count(b, IsUnmap) == 1 && Count(b, IsReset) == 0 && Count(b, IsUnref) == 0
  {
    var init, unmap := b[..|b| - 1], b[|b| - 1];
    assert b == init + [unmap];
    Single(unmap, IsUnmap, {});
    Single(unmap, IsReset, {});
    Single(unmap, IsUnref, {});
    RenderedRowsConcat(init, [unmap]);
    CountConcat(init, [unmap], IsUnmap);
    CountConcat(init, [unmap], IsReset);
    CountConcat(init, [unmap], IsUnref);
  }

  /** Calls matching p neither before nor inside the loop: the count is the tail's. */
  lemma CountAround(a: seq<Call>, mid: seq<Call>, b: seq<Call>, p: Call -> bool)
    requires Count(a, p) == 0 && forall k :: 0 <= k < |mid| ==> !p(mid[k])
    ensures Count(a + mid + b, p) == Count(b, p)
  {
    CountNone(mid, p);
    CountConcat(a, mid, p);
    CountConcat(a + mid, b, p);
  }

  lemma ScannedIsLog(g: Geometry, rows: seq<int>)
    ensures ScannedLog(Scanned(g, rows), rows)
  {
    var len := g.srcWidth * g.rows;
    RenderedDraws(g, rows);
    QuietCalls([FindRegion(len), SyncDirty, MapBlock(len)]);
    QuietCalls([]);
    Sandwich([FindRegion(len), SyncDirty, MapBlock(len)], DrawsOf(g, rows), [Unmap(len)], rows);
  }

  lemma SwapScannedIsLog(s: Surface, block: seq<bv8>, mode: SwapMode, lineStride: int, rows: seq<int>)
    requires mode != SwapNone && 0 <= lineStride <= s.stride && lineStride % 4 == 0
    requires |block| == Advance(s.height, s.stride)
    requires forall k :: 0 <= k < |rows| ==> 0 <= rows[k] < s.height
    ensures ScannedLog(SwapScanned(s, block, mode, lineStride, rows), rows)
  {
    var len := s.stride * s.height;
    var b := [LinebufRelease, Unmap(len)];
    assert b[..1] == [LinebufRelease];
    QuietCalls([FindRegion(len), SyncDirty, MapBlock(len), LinebufCreate(lineStride)]);
    QuietCalls([LinebufRelease]);
    RenderedCopies(mode, block, s.stride, s.height, lineStride, rows);
    Sandwich([FindRegion(len), SyncDirty, MapBlock(len), LinebufCreate(lineStride)],
             CopiesOf(mode, block, s.stride, s.height, lineStride, rows), b, rows);
  }

  lemma FinishLog(section: Section, len: int, rows: seq<int>, scanned: seq<Call>, lastRow: int)
    ensures Finish(section, len, rows, scanned, lastRow).log == scanned + FinishTail(section, len, rows)
    ensures Finish(section, len, rows, scanned, lastRow).firstRow == if rows == [] then -1 else rows[0]
    ensures Finish(section, len, rows, scanned, lastRow).lastRow == if rows == [] then lastRow else rows[|rows| - 1]
  {
  }

  lemma TailWithoutReset(d: set<int>)
    ensures RenderedRows([Unref]) == [] && Count([Unref], IsUnref) == 1
    ensures Count([Unref], IsUnmap) == 0 && Count([Unref], IsReset) == 0
    ensures DirtyAfter(d, [Unref]) == d
  {
    Single(Unref, IsUnref, d);
    Single(Unref, IsUnmap, d);
    Single(Unref, IsReset, d);
  }

  lemma TailWithReset(offset: int, len: int, d: set<int>)
    ensures var tail := [ResetDirty(offset, len), Unref];
      && RenderedRows(tail) == [] && Count(tail, IsUnref) == 1
      && Count(tail, IsUnmap) == 0 && Count(tail, IsReset) == 1
      && DirtyAfter(d, tail) == Cleared(d, offset, len)
  {
    var reset := ResetDirty(offset, len);
    assert [reset, Unref] == [reset] + [Unref];
    TailWithoutReset(Cleared(d, offset, len));
    Single(reset, IsUnref, d);
    Single(reset, IsUnmap, d);
    Single(reset, IsReset, d);
    RenderedRowsConcat([reset], [Unref]);
    CountConcat([reset], [Unref], IsUnref);
    CountConcat([reset], [Unref], IsUnmap);
    CountConcat([reset], [Unref], IsReset);
    DirtyAfterConcat(d, [reset], [Unref]);
  }

  /** The end of a scanned render: one unref, last; a reset of the whole
      section exactly when some row was rendered. */
  lemma FinishEffects(section: Section, len: int, rows: seq<int>, scanned: seq<Call>, lastRow: int, dirty: set<int>)
    requires ScannedLog(scanned, rows)
    ensures var r := Finish(section, len, rows, scanned, lastRow);
      && RenderedRows(r.log) == rows
      && Count(r.log, IsUnref) == 1 && r.log[|r.log| - 1] == Unref
      && Count(r.log, IsUnmap) == 1
      && Count(r.log, IsReset) == (if rows == [] then 0 else 1)
      && DirtyAfter(dirty, r.log) == (if rows == [] then dirty else Cleared(dirty, section.offsetWithinRegion, len))
  {
    var tail := FinishTail(section, len, rows);
    assert Finish(section, len, rows, scanned, lastRow).log == scanned + tail;
    if rows == [] {
      TailWithoutReset(dirty);
    } else {
      TailWithReset(section.offsetWithinRegion, len, dirty);
    }
    RenderedRowsConcat(scanned, tail);
    CountConcat(scanned, tail, IsUnref);
    CountConcat(scanned, tail, IsUnmap);
    CountConcat(scanned, tail, IsReset);
    DirtyAfterConcat(dirty, scanned, tail);
    DirtyAfterNoReset(dirty, scanned);
  }

  /** Render, unfolded for a resolved section. */
  lemma RenderResolved(section: Section, mapping: Mapping, dirty: set<int>, g: Geometry,
                       invalidate: int, firstRow: int, lastRow: int)
    requires ValidRequest(g, firstRow) && Resolved(section, mapping, g.srcWidth * g.rows)
    ensures var rows := ScanRows(Context(section, dirty, g.srcWidth, g.rows, invalidate), firstRow);
      Render(section, mapping, dirty, g, invalidate, firstRow, lastRow)
        == Finish(section, g.srcWidth * g.rows, rows, Scanned(g, rows), lastRow)
  {
  }

  // ---------------------------------------------------------------------
  // framebuffer_update_display

  /** A wrong-sized or non-RAM section, a failed map or a short map: the
      render reports no row, leaves *last_row alone, calls fn for no row and
      resets nothing. */
  lemma RejectionIsNoop(section: Section, mapping: Mapping, dirty: set<int>, g: Geometry,
                        invalidate: int, firstRow: int, lastRow: int)
    requires ValidRequest(g, firstRow)
    requires !Resolved(section, mapping, g.srcWidth * g.rows)
    ensures var r := Render(section, mapping, dirty, g, invalidate, firstRow, lastRow);
      && r.firstRow == -1 && r.lastRow == lastRow
      && RenderedRows(r.log) == []
      && Count(r.log, IsReset) == 0
      && DirtyAfter(dirty, r.log) == dirty
  {
    var r := Render(section, mapping, dirty, g, invalidate, firstRow, lastRow);
    assert r.log[|r.log| - 1] == Unref;
    CountNone(r.log, IsReset);
    DirtyAfterNoReset(dirty, r.log);
    RenderedNone(r.log);
  }

  /** Every render ends by dropping the reference memory_region_find took,
      exactly once; the mapping is released exactly once when the map
      succeeded, and never otherwise. */
  lemma ReleasesOnce(section: Section, mapping: Mapping, dirty: set<int>, g: Geometry,
                     invalidate: int, firstRow: int, lastRow: int)
    requires ValidRequest(g, firstRow)
    ensures var r := Render(section, mapping, dirty, g, invalidate, firstRow, lastRow);
      && Count(r.log, IsUnref) == 1 && r.log[|r.log| - 1] == Unref
      && Count(r.log, IsUnmap)
         == (if section.size == g.srcWidth * g.rows && section.isRam && mapping.Mapped? then 1 else 0)
  {
    var len := g.srcWidth * g.rows;
    if Resolved(section, mapping, len) {
      var rows := ScanRows(Context(section, dirty, g.srcWidth, g.rows, invalidate), firstRow);
      RenderResolved(section, mapping, dirty, g, invalidate, firstRow, lastRow);
      ScannedIsLog(g, rows);
      FinishEffects(section, len, rows, Scanned(g, rows), lastRow, dirty);
    } else {
      RejectionReleases(section, mapping, len, lastRow);
    }
  }

  /** The early exits drop the reference once, last, and unmap only a short map. */
  lemma RejectionReleases(section: Section, mapping: Mapping, len: int, lastRow: int)
    requires !Resolved(section, mapping, len)
    ensures var log := Rejection(section, mapping, len, lastRow).log;
      && Count(log, IsUnref) == 1 && log[|log| - 1] == Unref
      && Count(log, IsUnmap) == (if section.size == len && section.isRam && mapping.Mapped? then 1 else 0)
  {
    var pre := [FindRegion(len), SyncDirty, MapBlock(len)];
    var log := Rejection(section, mapping, len, lastRow).log;
    if section.size != len || !section.isRam {
      assert log == [FindRegion(len)] + [Unref];
      CountNone([FindRegion(len)], IsUnmap);
      ExitCounts([FindRegion(len)]);
    } else if mapping.MapFailed? {
      assert log == pre + [Unref];
      CountNone(pre, IsUnmap);
      ExitCounts(pre);
    } else {
      var unmap := Unmap(|mapping.block|);
      assert log == (pre + [unmap]) + [Unref];
      CountNone(pre, IsUnmap);
      Single(unmap, IsUnmap, {});
      CountConcat(pre, [unmap], IsUnmap);
      ExitCounts(pre + [unmap]);
    }
  }

  /** An early exit: calls without an unref, then the unref. */
  lemma ExitCounts(init: seq<Call>)
    requires forall k :: 0 <= k < |init| ==> !init[k].Unref?
    ensures Count(init + [Unref], IsUnref) == 1 && (init + [Unref])[|init|] == Unref
    ensures Count(init + [Unref], IsUnmap) == Count(init, IsUnmap)
  {
    TailWithoutReset({});
    CountNone(init, IsUnref);
    CountConcat(init, [Unref], IsUnref);
    CountConcat(init, [Unref], IsUnmap);
  }

  /** The rows handed to fn, in call order, are the rows the scan selects;
      with ScanRowsExact: exactly the rows of [first_row, rows) whose source
      line is dirty, or all of them under invalidate, in increasing order. */
  lemma RenderedRowsAreScanned(section: Section, mapping: Mapping, dirty: set<int>, g: Geometry,
                               invalidate: int, firstRow: int, lastRow: int)
    requires ValidRequest(g, firstRow) && Resolved(section, mapping, g.srcWidth * g.rows)
    ensures var r := Render(section, mapping, dirty, g, invalidate, firstRow, lastRow);
      RenderedRows(r.log) == ScanRows(Context(section, dirty, g.srcWidth, g.rows, invalidate), firstRow)
  {
    var rows := ScanRows(Context(section, dirty, g.srcWidth, g.rows, invalidate), firstRow);
    ScannedIsLog(g, rows);
    FinishEffects(section, g.srcWidth * g.rows, rows, Scanned(g, rows), lastRow, dirty);
  }

  /** first_row/last_row after a render: -1 and untouched when no row of
      [first_row, rows) is selected; otherwise the least and the greatest
      selected rows, with input <= first <= last < rows. */
  lemma ReportedSpan(section: Section, mapping: Mapping, dirty: set<int>, g: Geometry,
                     invalidate: int, firstRow: int, lastRow: int)
    requires ValidRequest(g, firstRow) && Resolved(section, mapping, g.srcWidth * g.rows)
    ensures var r := Render(section, mapping, dirty, g, invalidate, firstRow, lastRow);
      var ctx := Context(section, dirty, g.srcWidth, g.rows, invalidate);
      && (r.firstRow == -1 <==> forall i :: firstRow <= i < g.rows ==> !Selected(ctx, i))
      && (r.firstRow == -1 ==> r.lastRow == lastRow)
      && (r.firstRow != -1 ==>
            && firstRow <= r.firstRow <= r.lastRow < g.rows
            && Selected(ctx, r.firstRow) && Selected(ctx, r.lastRow)
            && (forall i :: firstRow <= i < r.firstRow ==> !Selected(ctx, i))
            && (forall i :: r.lastRow < i < g.rows ==> !Selected(ctx, i)))
  {
    var ctx := Context(section, dirty, g.srcWidth, g.rows, invalidate);
    var rows := ScanRows(ctx, firstRow);
    var r := Render(section, mapping, dirty, g, invalidate, firstRow, lastRow);
    RenderResolved(section, mapping, dirty, g, invalidate, firstRow, lastRow);
    FinishLog(section, g.srcWidth * g.rows, rows, Scanned(g, rows), lastRow);
    if rows == [] {
      forall i | firstRow <= i < g.rows
        ensures !Selected(ctx, i)
      {
        ScanRowsExact(ctx, firstRow, i);
      }
    } else {
      var n := |rows|;
      ScanRowsExact(ctx, firstRow, rows[0]);
      ScanRowsExact(ctx, firstRow, rows[n - 1]);
      forall i | firstRow <= i < g.rows && (i < rows[0] || rows[n - 1] < i)
        ensures !Selected(ctx, i)
      {
        ScanRowsExact(ctx, firstRow, i);
      }
    }
  }

  /** With invalidate set, every row from the resume row to the last one is
      drawn, in order, and the span is [first_row, rows - 1]. */
  lemma InvalidateSpan(section: Section, mapping: Mapping, dirty: set<int>, g: Geometry,
                       invalidate: int, firstRow: int, lastRow: int)
    requires ValidRequest(g, firstRow) && Resolved(section, mapping, g.srcWidth * g.rows)
    requires invalidate != 0 && firstRow < g.rows
    ensures var r := Render(section, mapping, dirty, g, invalidate, firstRow, lastRow);
      && r.firstRow == firstRow && r.lastRow == g.rows - 1
      && RenderedRows(r.log) == seq(g.rows - firstRow, k => firstRow + k)
  {
    var ctx := Context(section, dirty, g.srcWidth, g.rows, invalidate);
    InvalidateRows(ctx, firstRow);
    RenderedRowsAreScanned(section, mapping, dirty, g, invalidate, firstRow, lastRow);
    RenderResolved(section, mapping, dirty, g, invalidate, firstRow, lastRow);
  }

  /** Under invalidate the scan is the run of rows from the resume row. */
  lemma InvalidateRows(ctx: ScanContext, from: int)
    requires ctx.invalidate != 0 && from < ctx.rows
    ensures ScanRows(ctx, from) == seq(ctx.rows - from, k => from + k)
    ensures ScanRows(ctx, from)[0] == from && ScanRows(ctx, from)[ctx.rows - from - 1] == ctx.rows - 1
  {
    ScanRowsInvalidate(ctx, from);
    assert ScanRows(ctx, from) == seq(ctx.rows - from, k => from + k);
  }

  /** The bitmap is reset exactly when a row was drawn, once, over the whole
      section [offset_within_region, offset_within_region + src_width*rows). */
  lemma ResetIffRendered(section: Section, mapping: Mapping, dirty: set<int>, g: Geometry,
                         invalidate: int, firstRow: int, lastRow: int)
    requires ValidRequest(g, firstRow)
    ensures var r := Render(section, mapping, dirty, g, invalidate, firstRow, lastRow);
      && Count(r.log, IsReset) == (if r.firstRow >= 0 then 1 else 0)
      && (r.firstRow >= 0 <==> RenderedRows(r.log) != [])
      && DirtyAfter(dirty, r.log)
         == if r.firstRow >= 0 then Cleared(dirty, section.offsetWithinRegion, g.srcWidth * g.rows) else dirty
  {
    var len := g.srcWidth * g.rows;
    if Resolved(section, mapping, len) {
      var rows := ScanRows(Context(section, dirty, g.srcWidth, g.rows, invalidate), firstRow);
      ScannedIsLog(g, rows);
      FinishEffects(section, len, rows, Scanned(g, rows), lastRow, dirty);
    } else {
      RejectionIsNoop(section, mapping, dirty, g, invalidate, firstRow, lastRow);
    }
  }

  /** After a render that drew a row, no row of the section is dirty any
      more, the rows before the resume row included, and every dirty byte
      outside the section still is. */
  lemma ResetClearsAllRows(section: Section, mapping: Mapping, dirty: set<int>, g: Geometry,
                           invalidate: int, firstRow: int, lastRow: int)
    requires ValidRequest(g, firstRow)
    requires Render(section, mapping, dirty, g, invalidate, firstRow, lastRow).firstRow >= 0
    ensures var after := DirtyAfter(dirty, Render(section, mapping, dirty, g, invalidate, firstRow, lastRow).log);
      var off := section.offsetWithinRegion;
      && (forall i :: 0 <= i < g.rows ==> !RowDirty(after, off + Advance(i, g.srcWidth), g.srcWidth))
      && (forall b :: b in dirty && !(off <= b < off + g.srcWidth * g.rows) ==> b in after)
  {
    var off := section.offsetWithinRegion;
    ResetIffRendered(section, mapping, dirty, g, invalidate, firstRow, lastRow);
    AdvanceIsProduct(g.rows, g.srcWidth);
    var after := DirtyAfter(dirty, Render(section, mapping, dirty, g, invalidate, firstRow, lastRow).log);
    assert after == Cleared(dirty, off, Advance(g.rows, g.srcWidth));
    forall i | 0 <= i < g.rows
      ensures !RowDirty(after, off + Advance(i, g.srcWidth), g.srcWidth)
    {
      ClearedRowClean(dirty, off, g.srcWidth, g.rows, i);
    }
  }

  /** Once [off, off + rows*w) has been reset, row i of it has no dirty byte. */
  lemma ClearedRowClean(dirty: set<int>, off: int, w: int, rows: int, i: int)
    requires 0 <= i < rows && 0 <= w
    ensures !RowDirty(Cleared(dirty, off, Advance(rows, w)), off + Advance(i, w), w)
  {
    RowInBlock(i, w, rows);
  }

  /** Rendering again without invalidate, once the first render's reset has
      been applied, finds no dirty row and changes nothing. */
  lemma RenderAgainFindsNothing(section: Section, mapping: Mapping, dirty: set<int>, g: Geometry,
                                firstRow: int, lastRow: int)
    requires ValidRequest(g, firstRow)
    ensures var r1 := Render(section, mapping, dirty, g, 0, firstRow, lastRow);
      var after := DirtyAfter(dirty, r1.log);
      var r2 := Render(section, mapping, after, g, 0, firstRow, r1.lastRow);
      && r2.firstRow == -1 && r2.lastRow == r1.lastRow
      && DirtyAfter(after, r2.log) == after
  {
    var r1 := Render(section, mapping, dirty, g, 0, firstRow, lastRow);
    var after := DirtyAfter(dirty, r1.log);
    if !Resolved(section, mapping, g.srcWidth * g.rows) {
      RejectionIsNoop(section, mapping, after, g, 0, firstRow, r1.lastRow);
    } else {
      AgainReportsNothing(section, mapping, dirty, g, firstRow, lastRow);
      ResetIffRendered(section, mapping, after, g, 0, firstRow, r1.lastRow);
    }
  }

  /** The second render of RenderAgainFindsNothing on a resolved section
      selects no row. */
  lemma AgainReportsNothing(section: Section, mapping: Mapping, dirty: set<int>, g: Geometry,
                            firstRow: int, lastRow: int)
    requires ValidRequest(g, firstRow) && Resolved(section, mapping, g.srcWidth * g.rows)
    ensures var r1 := Render(section, mapping, dirty, g, 0, firstRow, lastRow);
      var r2 := Render(section, mapping, DirtyAfter(dirty, r1.log), g, 0, firstRow, r1.lastRow);
      r2.firstRow == -1 && r2.lastRow == r1.lastRow
  {
    var r1 := Render(section, mapping, dirty, g, 0, firstRow, lastRow);
    var after := DirtyAfter(dirty, r1.log);
    var ctx := Context(section, after, g.srcWidth, g.rows, 0);
    ReportedSpan(section, mapping, after, g, 0, firstRow, r1.lastRow);
    if r1.firstRow >= 0 {
      ResetClearsAllRows(section, mapping, dirty, g, 0, firstRow, lastRow);
      forall i | firstRow <= i < g.rows
        ensures !Selected(ctx, i)
      {
      }
    } else {
      ResetIffRendered(section, mapping, dirty, g, 0, firstRow, lastRow);
      ReportedSpan(section, mapping, dirty, g, 0, firstRow, lastRow);
    }
  }

  /** A call to fn for a row of the surface: its source is that row's
      src_width bytes inside the mapped block, its destination is the row's
      offset, and each of its cols pixels lies inside the destination block,
      whatever the signs of the pitches. */
  predicate DrawInBounds(g: Geometry, c: Call)
    requires c.Draw?
  {
    && 0 <= c.row < g.rows
    && c.src == Advance(c.row, g.srcWidth)
    && 0 <= c.src && c.src + g.srcWidth <= g.srcWidth * g.rows
    && c.dest == DestOffset(g, c.row)
    && c.cols == g.cols && c.colPitch == g.colPitch
    && (forall j :: 0 <= j < g.cols ==> 0 <= c.dest + j * g.colPitch <= DestExtent(g))
  }

  lemma DrawOfRowInBounds(g: Geometry, i: int)
    requires 0 <= i < g.rows && 0 <= g.srcWidth
    ensures DrawInBounds(g, Draw(i, DestOffset(g, i), Advance(i, g.srcWidth), g.cols, g.colPitch))
  {
    RowInBlock(i, g.srcWidth, g.rows);
    AdvanceIsProduct(g.rows, g.srcWidth);
    forall j | 0 <= j < g.cols
      ensures 0 <= DestOffset(g, i) + j * g.colPitch <= DestExtent(g)
    {
      DestWithinSurface(g, i, j);
    }
  }

  /** Every call to fn a render makes is in bounds, in the source and in
      the destination. */
  lemma DrawsStayInBounds(section: Section, mapping: Mapping, dirty: set<int>, g: Geometry,
                          invalidate: int, firstRow: int, lastRow: int)
    requires ValidRequest(g, firstRow)
    ensures var log := Render(section, mapping, dirty, g, invalidate, firstRow, lastRow).log;
      forall c :: c in log && c.Draw? ==> DrawInBounds(g, c)
  {
    var len := g.srcWidth * g.rows;
    if Resolved(section, mapping, len) {
      var rows := ScanRows(Context(section, dirty, g.srcWidth, g.rows, invalidate), firstRow);
      RenderResolved(section, mapping, dirty, g, invalidate, firstRow, lastRow);
      FinishLog(section, len, rows, Scanned(g, rows), lastRow);
      DrawCallsAreDraws(g, rows, FinishTail(section, len, rows));
      DrawsOfInBounds(g, rows);
    }
  }

  /** Every fn call of a render's log is one of the loop's calls. */
  lemma DrawCallsAreDraws(g: Geometry, rows: seq<int>, tail: seq<Call>)
    requires forall k :: 0 <= k < |tail| ==> !tail[k].Draw?
    ensures forall c :: c in Scanned(g, rows) + tail && c.Draw? ==> c in DrawsOf(g, rows)
  {
  }

  /** The loop's fn calls for rows of the surface are in bounds. */
  lemma DrawsOfInBounds(g: Geometry, rows: seq<int>)
    requires 0 <= g.srcWidth && forall k :: 0 <= k < |rows| ==> 0 <= rows[k] < g.rows
    ensures forall c :: c in DrawsOf(g, rows) ==> DrawInBounds(g, c)
  {
    var draws := DrawsOf(g, rows);
    forall c | c in draws
      ensures DrawInBounds(g, c)
    {
      var k :| 0 <= k < |draws| && draws[k] == c;
      DrawOfRowInBounds(g, rows[k]);
    }
  }

  // ---------------------------------------------------------------------
  // framebuffer_update_display_swap_pixman

  /** The swapping render as the plain render on the surface's geometry:
      cols, rows and src_width come from the surface. */
  function SurfaceGeometry(s: Surface): Geometry
  {
    Geometry(s.width, s.height, s.stride, 0, 0)
  }

  /** RenderSwap, unfolded for a resolved section. */
  lemma RenderSwapResolved(section: Section, mapping: Mapping, dirty: set<int>, s: Surface,
                           mode: SwapMode, lineStride: int, invalidate: int, firstRow: int, lastRow: int)
    requires SwapRequest(s, mode, lineStride, firstRow) && Resolved(section, mapping, s.stride * s.height)
    ensures |mapping.block| == Advance(s.height, s.stride)
    ensures var rows := ScanRows(Context(section, dirty, s.stride, s.height, invalidate), firstRow);
      RenderSwap(section, mapping, dirty, s, mode, lineStride, invalidate, firstRow, lastRow)
        == Finish(section, s.stride * s.height, rows, SwapScanned(s, mapping.block, mode, lineStride, rows), lastRow)
  {
    AdvanceIsProduct(s.height, s.stride);
  }

  /** The swapping render behaves as framebuffer_update_display on the
      surface's width, height and stride in everything but how a row is
      transformed: the same reported span, the same rows in the same order,
      the same releases and the same reset. */
  lemma SwapRenderMatchesRender(section: Section, mapping: Mapping, dirty: set<int>, s: Surface,
                                mode: SwapMode, lineStride: int, invalidate: int, firstRow: int, lastRow: int)
    requires SwapRequest(s, mode, lineStride, firstRow)
    ensures var a := Render(section, mapping, dirty, SurfaceGeometry(s), invalidate, firstRow, lastRow);
      var b := RenderSwap(section, mapping, dirty, s, mode, lineStride, invalidate, firstRow, lastRow);
      && b.firstRow == a.firstRow && b.lastRow == a.lastRow
      && RenderedRows(b.log) == RenderedRows(a.log)
      && Count(b.log, IsUnref) == Count(a.log, IsUnref) && b.log[|b.log| - 1] == a.log[|a.log| - 1]
      && Count(b.log, IsUnmap) == Count(a.log, IsUnmap)
      && Count(b.log, IsReset) == Count(a.log, IsReset)
      && DirtyAfter(dirty, b.log) == DirtyAfter(dirty, a.log)
  {
    var g := SurfaceGeometry(s);
    var len := s.stride * s.height;
    var a := Render(section, mapping, dirty, g, invalidate, firstRow, lastRow);
    var b := RenderSwap(section, mapping, dirty, s, mode, lineStride, invalidate, firstRow, lastRow);
    if Resolved(section, mapping, len) {
      var rows := ScanRows(Context(section, dirty, s.stride, s.height, invalidate), firstRow);
      RenderSwapResolved(section, mapping, dirty, s, mode, lineStride, invalidate, firstRow, lastRow);
      SwapScannedIsLog(s, mapping.block, mode, lineStride, rows);
      FinishEffects(section, len, rows, SwapScanned(s, mapping.block, mode, lineStride, rows), lastRow, dirty);
      RenderResolved(section, mapping, dirty, g, invalidate, firstRow, lastRow);
      ScannedIsLog(g, rows);
      FinishEffects(section, len, rows, Scanned(g, rows), lastRow, dirty);
    } else {
      assert b == a;
    }
  }

  /** The line buffer of a log with n copies: created right after the map,
      the copies right after it, released right after them and before the
      unmap, and no other line-buffer call. */
  predicate LinebufAround(log: seq<Call>, n: nat, len: int, lineStride: int)
  {
    && 6 + n <= |log|
    && log[2] == MapBlock(len) && log[3] == LinebufCreate(lineStride)
    && log[4 + n] == LinebufRelease && log[5 + n] == Unmap(len)
    && (forall k :: 0 <= k < |log| ==> (log[k].LinebufCopy? <==> 4 <= k < 4 + n))
    && (forall k :: 0 <= k < |log| && log[k].LinebufCreate? ==> k == 3)
    && (forall k :: 0 <= k < |log| && log[k].LinebufRelease? ==> k == 4 + n)
  }

  lemma SwapScannedAround(s: Surface, block: seq<bv8>, mode: SwapMode, lineStride: int, rows: seq<int>)
    requires mode != SwapNone && 0 <= lineStride <= s.stride && lineStride % 4 == 0
    requires |block| == Advance(s.height, s.stride)
    requires forall k :: 0 <= k < |rows| ==> 0 <= rows[k] < s.height
    ensures LinebufAround(SwapScanned(s, block, mode, lineStride, rows), |rows|, s.stride * s.height, lineStride)
  {
    var copies := CopiesOf(mode, block, s.stride, s.height, lineStride, rows);
    var log := SwapScanned(s, block, mode, lineStride, rows);
    forall k | 4 <= k < 4 + |rows|
      ensures log[k] == copies[k - 4]
    {
    }
  }

  lemma AroundWithTail(log: seq<Call>, tail: seq<Call>, n: nat, len: int, lineStride: int)
    requires LinebufAround(log, n, len, lineStride)
    requires forall k :: 0 <= k < |tail| ==> tail[k].ResetDirty? || tail[k].Unref?
    ensures LinebufAround(log + tail, n, len, lineStride)
  {
    var whole := log + tail;
    forall k | |log| <= k < |whole|
      ensures whole[k] == tail[k - |log|]
    {
    }
  }

  /** The line buffer exists only around the row loop of a render that got
      past the early exits: it is created once, after the map, every copy
      comes after its creation and before its release, and it is released
      once, before the unmap. A rejected render creates none. */
  lemma LinebufLifecycle(section: Section, mapping: Mapping, dirty: set<int>, s: Surface,
                         mode: SwapMode, lineStride: int, invalidate: int, firstRow: int, lastRow: int)
    requires SwapRequest(s, mode, lineStride, firstRow)
    ensures var log := RenderSwap(section, mapping, dirty, s, mode, lineStride, invalidate, firstRow, lastRow).log;
      if Resolved(section, mapping, s.stride * s.height) then
        LinebufAround(log, |RenderedRows(log)|, s.stride * s.height, lineStride)
      else
        forall k :: 0 <= k < |log| ==> !log[k].LinebufCreate? && !log[k].LinebufCopy? && !log[k].LinebufRelease?
  {
    if Resolved(section, mapping, s.stride * s.height) {
      LinebufAroundResolved(section, mapping, dirty, s, mode, lineStride, invalidate, firstRow, lastRow);
    } else {
      RejectionHasNoLinebuf(section, mapping, s.stride * s.height, lastRow);
    }
  }

  lemma LinebufAroundResolved(section: Section, mapping: Mapping, dirty: set<int>, s: Surface,
                              mode: SwapMode, lineStride: int, invalidate: int, firstRow: int, lastRow: int)
    requires SwapRequest(s, mode, lineStride, firstRow) && Resolved(section, mapping, s.stride * s.height)
    ensures var log := RenderSwap(section, mapping, dirty, s, mode, lineStride, invalidate, firstRow, lastRow).log;
      LinebufAround(log, |RenderedRows(log)|, s.stride * s.height, lineStride)
  {
    var len := s.stride * s.height;
    var rows := ScanRows(Context(section, dirty, s.stride, s.height, invalidate), firstRow);
    RenderSwapResolved(section, mapping, dirty, s, mode, lineStride, invalidate, firstRow, lastRow);
    var scanned := SwapScanned(s, mapping.block, mode, lineStride, rows);
    SwapScannedIsLog(s, mapping.block, mode, lineStride, rows);
    SwapScannedAround(s, mapping.block, mode, lineStride, rows);
    FinishedAround(section, len, rows, scanned, lastRow, lineStride);
  }

  /** Finishing a scanned log keeps the line buffer's place in it. */
  lemma FinishedAround(section: Section, len: int, rows: seq<int>, scanned: seq<Call>, lastRow: int, lineStride: int)
    requires ScannedLog(scanned, rows) && LinebufAround(scanned, |rows|, len, lineStride)
    ensures var log := Finish(section, len, rows, scanned, lastRow).log;
      LinebufAround(log, |RenderedRows(log)|, len, lineStride)
  {
    var tail := FinishTail(section, len, rows);
    FinishLog(section, len, rows, scanned, lastRow);
    if rows == [] {
      TailWithoutReset({});
    } else {
      TailWithReset(section.offsetWithinRegion, len, {});
    }
    RenderedRowsConcat(scanned, tail);
    AroundWithTail(scanned, tail, |rows|, len, lineStride);
  }

  lemma RejectionHasNoLinebuf(section: Section, mapping: Mapping, len: int, lastRow: int)
    requires !Resolved(section, mapping, len)
    ensures var log := Rejection(section, mapping, len, lastRow).log;
      forall k :: 0 <= k < |log| ==> !log[k].LinebufCreate? && !log[k].LinebufCopy? && !log[k].LinebufRelease?
  {
  }

  /** Swapping a copied line once more with the same mode gives back the
      first line-stride bytes of its source row: every copy carries its row,
      transformed unit by unit. */
  lemma CopiedLinesRestore(section: Section, mapping: Mapping, dirty: set<int>, s: Surface,
                           mode: SwapMode, lineStride: int, invalidate: int, firstRow: int, lastRow: int)
    requires SwapRequest(s, mode, lineStride, firstRow) && Resolved(section, mapping, s.stride * s.height)
    ensures var log := RenderSwap(section, mapping, dirty, s, mode, lineStride, invalidate, firstRow, lastRow).log;
      forall c :: c in log && c.LinebufCopy? ==> Restores(mode, mapping.block, s, lineStride, c)
  {
    var len := s.stride * s.height;
    var rows := ScanRows(Context(section, dirty, s.stride, s.height, invalidate), firstRow);
    var block := mapping.block;
    RenderSwapResolved(section, mapping, dirty, s, mode, lineStride, invalidate, firstRow, lastRow);
    var scanned := SwapScanned(s, block, mode, lineStride, rows);
    FinishLog(section, len, rows, scanned, lastRow);
    CopiesRestore(mode, block, s, lineStride, rows);
    CopyCallsAreCopies(s, block, mode, lineStride, rows, FinishTail(section, len, rows));
  }

  /** Every copy call of a swapping render's log is one of the loop's copies. */
  lemma CopyCallsAreCopies(s: Surface, block: seq<bv8>, mode: SwapMode, lineStride: int, rows: seq<int>,
                           tail: seq<Call>)
    requires mode != SwapNone && 0 <= lineStride <= s.stride && lineStride % 4 == 0
    requires |block| == Advance(s.height, s.stride)
    requires forall k :: 0 <= k < |rows| ==> 0 <= rows[k] < s.height
    requires forall k :: 0 <= k < |tail| ==> !tail[k].LinebufCopy?
    ensures forall c :: c in SwapScanned(s, block, mode, lineStride, rows) + tail && c.LinebufCopy?
                        ==> c in CopiesOf(mode, block, s.stride, s.height, lineStride, rows)
  {
  }

  /** Every copy the loop makes restores its row. */
  lemma CopiesRestore(mode: SwapMode, block: seq<bv8>, s: Surface, lineStride: int, rows: seq<int>)
    requires mode != SwapNone && 0 <= lineStride <= s.stride && lineStride % 4 == 0
    requires |block| == Advance(s.height, s.stride)
    requires forall k :: 0 <= k < |rows| ==> 0 <= rows[k] < s.height
    ensures forall c :: c in CopiesOf(mode, block, s.stride, s.height, lineStride, rows) ==> Restores(mode, block, s, lineStride, c)
  {
    var copies := CopiesOf(mode, block, s.stride, s.height, lineStride, rows);
    forall c | c in copies
      ensures Restores(mode, block, s, lineStride, c)
    {
      var k :| 0 <= k < |copies| && copies[k] == c;
      CopyRestores(mode, block, s, lineStride, rows[k]);
    }
  }

  /** A line-buffer copy to row c.row of the surface whose line, swapped
      again, is the first line-stride bytes of that source row. */
  predicate Restores(mode: SwapMode, block: seq<bv8>, s: Surface, lineStride: int, c: Call)
    requires c.LinebufCopy?
  {
    && mode != SwapNone && 0 <= lineStride <= s.stride && Whole(mode, lineStride)
    && |block| == Advance(s.height, s.stride)
    && 0 <= c.row < s.height && |c.line| == lineStride
    && SwapLine(mode, c.line, lineStride) == RowBytes(block, s.stride, s.height, c.row)[..lineStride]
  }

  /** The line copied for row i, swapped again, is the start of row i. */
  lemma CopyRestores(mode: SwapMode, block: seq<bv8>, s: Surface, lineStride: int, i: int)
    requires mode != SwapNone && 0 <= lineStride <= s.stride && lineStride % 4 == 0
    requires |block| == Advance(s.height, s.stride) && 0 <= i < s.height
    ensures Restores(mode, block, s, lineStride, LinebufCopy(i, LineOf(mode, block, s.stride, s.height, lineStride, i)))
  {
    var row := RowBytes(block, s.stride, s.height, i);
    RowInBlock(i, s.stride, s.height);
    assert Covered(mode, lineStride) == lineStride;
    SwapLineTwice(mode, row, lineStride);
  }
}
