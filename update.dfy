/*
 * The two render entry points of hw/display/framebuffer.c:
 * framebuffer_update_display, which hands every rendered row to a
 * per-device draw function, and framebuffer_update_display_swap_pixman,
 * which byte-swaps every rendered row into a line buffer and copies that
 * line into the surface image.
 *
 * Both are modelled as methods that follow the C code step by step (the
 * early exits, the cursors advanced on every row, the span accumulator)
 * and that are proved equal to a specification function, Render or
 * RenderSwap, built from the declarative row selection ScanRows. The
 * lemmas state what a render promises its caller.
 */
module FramebufferUpdate {
  import opened DirtyScan
  import opened FramebufferSwap

  /** What a render hands back: the in/out *first_row, the out *last_row and
      the calls made, in order. */
  datatype Outcome = Outcome(firstRow: int, lastRow: int, log: seq<Call>)

  /** The lookup found a RAM section of exactly len bytes and the whole of it was mapped. */
  predicate Resolved(section: Section, mapping: Mapping, len: int)
  {
    section.size == len && section.isRam && mapping.Mapped? && |mapping.block| == len
  }

  /** The three early exits: wrong size or not RAM, a null mapping, a short
      mapping (unmapped again). *first_row is -1 and *last_row is untouched. */
  function Rejection(section: Section, mapping: Mapping, len: int, lastRow: int): Outcome
    requires !Resolved(section, mapping, len)
  {
    if section.size != len || !section.isRam then
      Outcome(-1, lastRow, [FindRegion(len), Unref])
    else if mapping.MapFailed? then
      Outcome(-1, lastRow, [FindRegion(len), SyncDirty, MapBlock(len), Unref])
    else
      Outcome(-1, lastRow, [FindRegion(len), SyncDirty, MapBlock(len), Unmap(|mapping.block|), Unref])
  }

  /** The end of a render that scanned: with no rendered row nothing more
      happens; otherwise the whole section's dirty range is reset and the
      first and last rendered rows are reported. */
  function Finish(section: Section, len: int, rows: seq<int>, scanned: seq<Call>, lastRow: int): Outcome
  {
    var log := scanned + FinishTail(section, len, rows);
    if rows == [] then Outcome(-1, lastRow, log) else Outcome(rows[0], rows[|rows| - 1], log)
  }

  /** The calls made after the unmap: the reset when a row was rendered,
      then the reference drop. */
  function FinishTail(section: Section, len: int, rows: seq<int>): seq<Call>
  {
    if rows == [] then [Unref] else [ResetDirty(section.offsetWithinRegion, len), Unref]
  }

  /** The row loop's view of a render. */
  function Context(section: Section, dirty: set<int>, srcWidth: int, rows: int, invalidate: int): ScanContext
  {
    ScanContext(dirty, section.offsetWithinRegion, srcWidth, rows, invalidate)
  }

  /** The calls to fn for the given rows. */
  function DrawsOf(g: Geometry, rows: seq<int>): seq<Call>
  {
    seq(|rows|, k requires 0 <= k < |rows| =>
      Draw(rows[k], DestOffset(g, rows[k]), Advance(rows[k], g.srcWidth), g.cols, g.colPitch))
  }

  /** Requirements of framebuffer_update_display on its integer arguments:
      src_width * rows is a non-negative C int, and the resume row is not
      before the first row. */
  predicate ValidRequest(g: Geometry, firstRow: int)
  {
    0 <= g.srcWidth && 0 <= g.rows && g.srcWidth * g.rows <= IntMax && 0 <= firstRow
  }

  lemma DrawsOfSnoc(g: Geometry, rows: seq<int>, i: int)
    ensures DrawsOf(g, rows + [i])
         == DrawsOf(g, rows) + [Draw(i, DestOffset(g, i), Advance(i, g.srcWidth), g.cols, g.colPitch)]
  {
  }

  // =====================================================================
  // framebuffer_update_display

  /** What framebuffer_update_display does, stated over the rows ScanRows selects. */
  function Render(section: Section, mapping: Mapping, dirty: set<int>, g: Geometry,
                  invalidate: int, firstRow: int, lastRow: int): Outcome
    requires ValidRequest(g, firstRow)
  {
    var len := g.srcWidth * g.rows;
    if !Resolved(section, mapping, len) then Rejection(section, mapping, len, lastRow)
    else
      var rows := ScanRows(Context(section, dirty, g.srcWidth, g.rows, invalidate), firstRow);
      Finish(section, len, rows, Scanned(g, rows), lastRow)
  }

  /** The calls framebuffer_update_display makes from the region lookup to
      the unmap once it is past the early exits. */
  function Scanned(g: Geometry, rows: seq<int>): seq<Call>
  {
    var len := g.srcWidth * g.rows;
    [FindRegion(len), SyncDirty, MapBlock(len)] + DrawsOf(g, rows) + [Unmap(len)]
  }

  method UpdateDisplay(section: Section, mapping: Mapping, dirty: set<int>,
                       cols: int, rows: int, srcWidth: int, destRowPitch: int, destColPitch: int,
                       invalidate: int, firstRow: int, lastRow: int) returns (r: Outcome)
    requires ValidRequest(Geometry(cols, rows, srcWidth, destRowPitch, destColPitch), firstRow)
    ensures r == Render(section, mapping, dirty, Geometry(cols, rows, srcWidth, destRowPitch, destColPitch),
                        invalidate, firstRow, lastRow)
  {
    var srcLen := srcWidth * rows;
    var log := [FindRegion(srcLen)];
    if section.size != srcLen || !section.isRam {
      return Outcome(-1, lastRow, log + [Unref]);
    }
    log := log + [SyncDirty, MapBlock(srcLen)];
    if mapping.MapFailed? {
      return Outcome(-1, lastRow, log + [Unref]);
    }
    srcLen := |mapping.block|;
    if srcLen != srcWidth * rows {
      return Outcome(-1, lastRow, log + [Unmap(srcLen), Unref]);
    }
    var dest := 0;
    if destColPitch < 0 {
      dest := dest - destColPitch * (cols - 1);
    }
    if destRowPitch < 0 {
      dest := dest - destRowPitch * (rows - 1);
    }
    var first, last, draws;
    ghost var drawn;
    first, last, draws, drawn := DrawRows(section, dirty, cols, rows, srcWidth, destRowPitch, destColPitch,
                                          invalidate, firstRow, dest);
    log := log + draws;
    log := log + [Unmap(srcLen)];
    assert log == [FindRegion(srcLen), SyncDirty, MapBlock(srcLen)] + draws + [Unmap(srcLen)];
    assert log == Scanned(Geometry(cols, rows, srcWidth, destRowPitch, destColPitch), drawn);
    r := Conclude(section, srcLen, drawn, first, last, log, lastRow);
  }

  /** The end of both renders once the block is unmapped: nothing more when
      no row was rendered; otherwise the reset of the whole section and the
      report of the span. The reference is dropped either way. */
  method Conclude(section: Section, len: int, ghost drawn: seq<int>, first: int, last: int,
                  log: seq<Call>, lastRow: int) returns (r: Outcome)
    requires forall k :: 0 <= k < |drawn| ==> 0 <= drawn[k]
    requires first == (if drawn == [] then -1 else drawn[0]) && (drawn != [] ==> last == drawn[|drawn| - 1])
    ensures r == Finish(section, len, drawn, log, lastRow)
  {
    if first < 0 {
      return Outcome(-1, lastRow, log + [Unref]);
    }
    var reset := [ResetDirty(section.offsetWithinRegion, len)];
    r := Outcome(first, last, log + reset + [Unref]);
  }

  /** What a row loop has done once it reaches row i: `drawn` are the rows
      rendered so far, the rest of the scan is ScanRows(ctx, i), and first and
      last are the span accumulator. */
  ghost predicate Progress(ctx: ScanContext, firstRow: int, i: int, drawn: seq<int>, first: int, last: int)
  {
    && drawn + ScanRows(ctx, i) == ScanRows(ctx, firstRow)
    && (forall k :: 0 <= k < |drawn| ==> firstRow <= drawn[k])
    && first == (if drawn == [] then -1 else drawn[0])
    && (drawn != [] ==> last == drawn[|drawn| - 1])
  }

  /** A selected row is rendered and enters the span. */
  lemma ProgressSelected(ctx: ScanContext, firstRow: int, i: int, drawn: seq<int>, first: int, last: int)
    requires 0 <= firstRow <= i < ctx.rows && Selected(ctx, i)
    requires Progress(ctx, firstRow, i, drawn, first, last)
    ensures Progress(ctx, firstRow, i + 1, drawn + [i], if first == -1 then i else first, i)
  {
    ScanStep(ctx, i);
    var rest := ScanRows(ctx, i + 1);
    assert ScanRows(ctx, i) == [i] + rest;
    assert (drawn + [i]) + rest == drawn + ([i] + rest);
    assert drawn != [] ==> (drawn + [i])[0] == drawn[0];
  }

  /** A row that is not selected leaves everything but the position alone. */
  lemma ProgressSkipped(ctx: ScanContext, firstRow: int, i: int, drawn: seq<int>, first: int, last: int)
    requires i < ctx.rows && !Selected(ctx, i)
    requires Progress(ctx, firstRow, i, drawn, first, last)
    ensures Progress(ctx, firstRow, i + 1, drawn, first, last)
  {
    ScanStep(ctx, i);
  }

  /** At the last row the loop has rendered the whole scan. */
  lemma ProgressDone(ctx: ScanContext, firstRow: int, i: int, drawn: seq<int>, first: int, last: int)
    requires ctx.rows <= i && Progress(ctx, firstRow, i, drawn, first, last)
    ensures drawn == ScanRows(ctx, firstRow)
  {
    assert ScanRows(ctx, i) == [];
  }

  /** The row loop of framebuffer_update_display, from the resume row to the
      last row: the dirty-bitmap cursor, the source offset and the destination
      offset advance on every row, and fn is called for the selected rows. */
  method DrawRows(section: Section, dirty: set<int>,
                  cols: int, rows: int, srcWidth: int, destRowPitch: int, destColPitch: int,
                  invalidate: int, firstRow: int, destBase: int)
      returns (first: int, last: int, draws: seq<Call>, ghost drawn: seq<int>)
    requires 0 <= firstRow
    requires destBase == DestBase(Geometry(cols, rows, srcWidth, destRowPitch, destColPitch))
    ensures drawn == ScanRows(Context(section, dirty, srcWidth, rows, invalidate), firstRow)
    ensures var scan := ScanRows(Context(section, dirty, srcWidth, rows, invalidate), firstRow);
      && draws == DrawsOf(Geometry(cols, rows, srcWidth, destRowPitch, destColPitch), scan)
      && first == (if scan == [] then -1 else scan[0])
      && (scan != [] ==> last == scan[|scan| - 1])
  {
    ghost var g := Geometry(cols, rows, srcWidth, destRowPitch, destColPitch);
    ghost var ctx := Context(section, dirty, srcWidth, rows, invalidate);
    var i := firstRow;
    var dest := destBase;
    first := -1;
    last := 0;
    var addr := section.offsetWithinRegion;
    addr := addr + i * srcWidth;
    var src := i * srcWidth;
    dest := dest + i * destRowPitch;
    AdvanceIsProduct(i, srcWidth);
    AdvanceIsProduct(i, destRowPitch);
    draws := [];
    drawn := [];
    while i < rows
      invariant firstRow <= i
      invariant addr == section.offsetWithinRegion + Advance(i, srcWidth)
      invariant src == Advance(i, srcWidth)
      invariant dest == DestOffset(g, i)
      invariant Progress(ctx, firstRow, i, drawn, first, last)
      invariant draws == DrawsOf(g, drawn)
      decreases rows - i
    {
      if RowDirty(dirty, addr, srcWidth) || invalidate != 0 {
        ProgressSelected(ctx, firstRow, i, drawn, first, last);
        DrawsOfSnoc(g, drawn, i);
        draws := draws + [Draw(i, dest, src, cols, destColPitch)];
        if first == -1 {
          first := i;
        }
        last := i;
        drawn := drawn + [i];
      } else {
        ProgressSkipped(ctx, firstRow, i, drawn, first, last);
      }
      AdvanceStep(i, srcWidth);
      AdvanceStep(i, destRowPitch);
      addr := addr + srcWidth;
      src := src + srcWidth;
      dest := dest + destRowPitch;
      i := i + 1;
    }
    ProgressDone(ctx, firstRow, i, drawn, first, last);
  }

  // =====================================================================
  // framebuffer_update_display_swap_pixman

  /** The display surface as the swapping render reads it: width (cols),
      height (rows) and stride (the source line length). */
  datatype Surface = Surface(width: int, height: int, stride: int)

  /** Requirements of framebuffer_update_display_swap_pixman: those of the
      plain render on stride x height, a real swap mode, and a line buffer
      whose pixman stride (a multiple of 4 bytes) fits in one source line. */
  predicate SwapRequest(s: Surface, mode: SwapMode, lineStride: int, firstRow: int)
  {
    && 0 <= s.stride && 0 <= s.height && s.stride * s.height <= IntMax && 0 <= firstRow
    && mode != SwapNone && 0 <= lineStride <= s.stride && lineStride % 4 == 0
  }

  /** Source row i of the mapped block: bytes [i*w, i*w + w). */
  function RowBytes(block: seq<bv8>, w: int, rows: int, i: int): (b: seq<bv8>)
    requires 0 <= i < rows && 0 <= w && |block| == Advance(rows, w)
    ensures |b| == w
  {
    RowInBlock(i, w, rows);
    block[Advance(i, w)..Advance(i, w) + w]
  }

  /** The line buffer after framebuffer_swap on source row i. */
  function LineOf(mode: SwapMode, block: seq<bv8>, w: int, rows: int, lineStride: int, i: int): (line: seq<bv8>)
    requires mode != SwapNone && 0 <= lineStride <= w && lineStride % 4 == 0
    requires 0 <= i < rows && |block| == Advance(rows, w)
    ensures |line| == lineStride
  {
    SwapLine(mode, RowBytes(block, w, rows, i), Covered(mode, lineStride))
  }

  /** The qemu_pixman_linebuf_copy calls for the given rows. */
  function CopiesOf(mode: SwapMode, block: seq<bv8>, w: int, rows: int, lineStride: int, drawn: seq<int>): seq<Call>
    requires mode != SwapNone && 0 <= lineStride <= w && lineStride % 4 == 0 && |block| == Advance(rows, w)
    requires forall k :: 0 <= k < |drawn| ==> 0 <= drawn[k] < rows
  {
    seq(|drawn|, k requires 0 <= k < |drawn| =>
      LinebufCopy(drawn[k], LineOf(mode, block, w, rows, lineStride, drawn[k])))
  }

  lemma CopiesOfSnoc(mode: SwapMode, block: seq<bv8>, w: int, rows: int, lineStride: int, drawn: seq<int>, i: int)
    requires mode != SwapNone && 0 <= lineStride <= w && lineStride % 4 == 0 && |block| == Advance(rows, w)
    requires forall k :: 0 <= k < |drawn| ==> 0 <= drawn[k] < rows
    requires 0 <= i < rows
    ensures CopiesOf(mode, block, w, rows, lineStride, drawn + [i])
         == CopiesOf(mode, block, w, rows, lineStride, drawn) + [LinebufCopy(i, LineOf(mode, block, w, rows, lineStride, i))]
  {
  }

  /** `copies` are the line-buffer copies of the rows `drawn`. */
  ghost predicate Copied(mode: SwapMode, block: seq<bv8>, w: int, rows: int, lineStride: int,
                         drawn: seq<int>, copies: seq<Call>)
  {
    && mode != SwapNone && 0 <= lineStride <= w && lineStride % 4 == 0 && |block| == Advance(rows, w)
    && (forall k :: 0 <= k < |drawn| ==> 0 <= drawn[k] < rows)
    && copies == CopiesOf(mode, block, w, rows, lineStride, drawn)
  }

  lemma CopiedSnoc(mode: SwapMode, block: seq<bv8>, w: int, rows: int, lineStride: int,
                   drawn: seq<int>, copies: seq<Call>, i: int, line: seq<bv8>)
    requires Copied(mode, block, w, rows, lineStride, drawn, copies)
    requires 0 <= i < rows && line == LineOf(mode, block, w, rows, lineStride, i)
    ensures Copied(mode, block, w, rows, lineStride, drawn + [i], copies + [LinebufCopy(i, line)])
  {
    CopiesOfSnoc(mode, block, w, rows, lineStride, drawn, i);
  }

  /** What framebuffer_update_display_swap_pixman does, stated over the rows ScanRows selects. */
  function RenderSwap(section: Section, mapping: Mapping, dirty: set<int>, s: Surface, mode: SwapMode,
                      lineStride: int, invalidate: int, firstRow: int, lastRow: int): Outcome
    requires SwapRequest(s, mode, lineStride, firstRow)
  {
    var len := s.stride * s.height;
    if !Resolved(section, mapping, len) then Rejection(section, mapping, len, lastRow)
    else
      var rows := ScanRows(Context(section, dirty, s.stride, s.height, invalidate), firstRow);
      AdvanceIsProduct(s.height, s.stride);
      Finish(section, len, rows, SwapScanned(s, mapping.block, mode, lineStride, rows), lastRow)
  }

  /** The calls framebuffer_update_display_swap_pixman makes from the region
      lookup to the unmap once it is past the early exits. */
  function SwapScanned(s: Surface, block: seq<bv8>, mode: SwapMode, lineStride: int, rows: seq<int>): seq<Call>
    requires mode != SwapNone && 0 <= lineStride <= s.stride && lineStride % 4 == 0
    requires |block| == Advance(s.height, s.stride)
    requires forall k :: 0 <= k < |rows| ==> 0 <= rows[k] < s.height
  {
    var len := s.stride * s.height;
    [FindRegion(len), SyncDirty, MapBlock(len), LinebufCreate(lineStride)]
    + CopiesOf(mode, block, s.stride, s.height, lineStride, rows)
    + [LinebufRelease, Unmap(len)]
  }

  method UpdateDisplaySwapPixman(s: Surface, section: Section, mapping: Mapping, dirty: set<int>,
                                 mode: SwapMode, lineStride: int, invalidate: int,
                                 firstRow: int, lastRow: int) returns (r: Outcome)
    requires SwapRequest(s, mode, lineStride, firstRow)
    ensures r == RenderSwap(section, mapping, dirty, s, mode, lineStride, invalidate, firstRow, lastRow)
  {
    var cols, rows, srcWidth := s.width, s.height, s.stride;
    var srcLen := srcWidth * rows;
    var log := [FindRegion(srcLen)];
    if section.size != srcLen || !section.isRam {
      return Outcome(-1, lastRow, log + [Unref]);
    }
    log := log + [SyncDirty, MapBlock(srcLen)];
    if mapping.MapFailed? {
      return Outcome(-1, lastRow, log + [Unref]);
    }
    srcLen := |mapping.block|;
    if srcLen != srcWidth * rows {
      return Outcome(-1, lastRow, log + [Unmap(srcLen), Unref]);
    }
    AdvanceIsProduct(rows, srcWidth);
    var linebuf := new bv8[lineStride];
    log := log + [LinebufCreate(lineStride)];
    assert log == [FindRegion(srcLen), SyncDirty, MapBlock(srcLen), LinebufCreate(lineStride)];
    var first, last, copies;
    ghost var drawn;
    first, last, copies, drawn := CopyRows(section, dirty, mapping.block, mode, linebuf, rows, srcWidth,
                                           invalidate, firstRow);
    log := log + copies;
    log := log + [LinebufRelease];
    log := log + [Unmap(srcLen)];
    assert log == [FindRegion(srcLen), SyncDirty, MapBlock(srcLen), LinebufCreate(lineStride)]
                  + copies + [LinebufRelease, Unmap(srcLen)];
    r := Conclude(section, srcLen, drawn, first, last, log, lastRow);
  }

  /** The row loop of framebuffer_update_display_swap_pixman: every selected
      row is byte-swapped into the line buffer, whose whole content is then
      copied into row i of the surface image. The line buffer is scratch:
      SwapRow overwrites it before each copy, each copy records the line it
      took, and the caller releases the buffer after the loop
      (hw/display/framebuffer.c:226), so what it holds afterwards is not
      part of this contract. */
  method CopyRows(section: Section, dirty: set<int>, block: seq<bv8>, mode: SwapMode, linebuf: array<bv8>,
                  rows: int, srcWidth: int, invalidate: int, firstRow: int)
      returns (first: int, last: int, copies: seq<Call>, ghost drawn: seq<int>)
    requires mode != SwapNone && linebuf.Length <= srcWidth && linebuf.Length % 4 == 0
    requires 0 <= rows && |block| == Advance(rows, srcWidth) && 0 <= firstRow
    modifies linebuf
    ensures drawn == ScanRows(Context(section, dirty, srcWidth, rows, invalidate), firstRow)
    ensures copies == CopiesOf(mode, block, srcWidth, rows, linebuf.Length, drawn)
    ensures first == (if drawn == [] then -1 else drawn[0])
    ensures drawn != [] ==> last == drawn[|drawn| - 1]
  {
    ghost var ctx := Context(section, dirty, srcWidth, rows, invalidate);
    var i := firstRow;
    first := -1;
    last := 0;
    var addr := section.offsetWithinRegion;
    addr := addr + i * srcWidth;
    var src := i * srcWidth;
    AdvanceIsProduct(i, srcWidth);
    copies := [];
    drawn := [];
    while i < rows
      invariant firstRow <= i
      invariant addr == section.offsetWithinRegion + Advance(i, srcWidth)
      invariant src == Advance(i, srcWidth)
      invariant Progress(ctx, firstRow, i, drawn, first, last)
      invariant Copied(mode, block, srcWidth, rows, linebuf.Length, drawn, copies)
      decreases rows - i
    {
      first, last, copies, drawn := CopyRow(section, dirty, block, mode, linebuf, rows, srcWidth, invalidate,
                                            firstRow, i, addr, src, first, last, copies, drawn);
      AdvanceStep(i, srcWidth);
      addr := addr + srcWidth;
      src := src + srcWidth;
      i := i + 1;
    }
    ProgressDone(ctx, firstRow, i, drawn, first, last);
  }

  /** The body of the pixman row loop for row i: when the row is dirty or
      the display is invalidated, framebuffer_swap into the line buffer, then
      qemu_pixman_linebuf_copy of the whole buffer into row i, appended to
      the copies made so far, and row i enters the span. */
  method CopyRow(section: Section, dirty: set<int>, block: seq<bv8>, mode: SwapMode, linebuf: array<bv8>,
                 rows: int, srcWidth: int, invalidate: int, ghost firstRow: int, i: int, addr: int, src: int,
                 first: int, last: int, copies: seq<Call>, ghost drawn: seq<int>)
      returns (first': int, last': int, copies': seq<Call>, ghost drawn': seq<int>)
    requires linebuf.Length <= srcWidth && 0 <= firstRow <= i < rows
    requires addr == section.offsetWithinRegion + Advance(i, srcWidth) && src == Advance(i, srcWidth)
    requires Progress(Context(section, dirty, srcWidth, rows, invalidate), firstRow, i, drawn, first, last)
    requires Copied(mode, block, srcWidth, rows, linebuf.Length, drawn, copies)
    modifies linebuf
    ensures Progress(Context(section, dirty, srcWidth, rows, invalidate), firstRow, i + 1, drawn', first', last')
    ensures Copied(mode, block, srcWidth, rows, linebuf.Length, drawn', copies')
  {
    ghost var ctx := Context(section, dirty, srcWidth, rows, invalidate);
    if RowDirty(dirty, addr, srcWidth) || invalidate != 0 {
      ProgressSelected(ctx, firstRow, i, drawn, first, last);
      SwapRow(mode, linebuf, block, srcWidth, rows, i, src);
      CopiedSnoc(mode, block, srcWidth, rows, linebuf.Length, drawn, copies, i, linebuf[..]);
      copies' := copies + [LinebufCopy(i, linebuf[..])];
      first' := if first == -1 then i else first;
      last' := i;
      drawn' := drawn + [i];
    } else {
      ProgressSkipped(ctx, firstRow, i, drawn, first, last);
      first', last', copies', drawn' := first, last, copies, drawn;
    }
  }

  /** framebuffer_swap(swapmode, linebuf, src) on source row i, src being
      the row's offset in the mapped block. */
  method SwapRow(mode: SwapMode, linebuf: array<bv8>, block: seq<bv8>, srcWidth: int, rows: int, i: int, src: int)
    requires mode != SwapNone && linebuf.Length <= srcWidth && linebuf.Length % 4 == 0
    requires 0 <= i < rows && |block| == Advance(rows, srcWidth) && src == Advance(i, srcWidth)
    modifies linebuf
    ensures linebuf[..] == LineOf(mode, block, srcWidth, rows, linebuf.Length, i)
  {
    RowInBlock(i, srcWidth, rows);
    Swap(mode, linebuf, block[src..src + srcWidth]);
  }
}
