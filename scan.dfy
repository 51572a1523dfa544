/*
 * What the two render entry points of hw/display/framebuffer.c share:
 * the values they receive from the memory subsystem, the rows the dirty
 * scan selects, where a row lands in the destination surface, and the log
 * of calls a render makes to its collaborators.
 */
module DirtyScan {

  /** Largest value of a C `int`. */
  const IntMax: int := 0x7fff_ffff

  /** The part of the MemoryRegionSection returned by memory_region_find
      that the render reads: the size of the section found, whether its
      region is RAM, and where the section starts inside its region. */
  datatype Section = Section(size: int, isRam: bool, offsetWithinRegion: int)

  /** Outcome of cpu_physical_memory_map: a null pointer, or the mapped
      bytes, whose count is the length the map call hands back. */
  datatype Mapping = MapFailed | Mapped(block: seq<bv8>)

  /** One call a render makes to a collaborator, in the order made. */
  datatype Call =
    | FindRegion(len: int)                                         // memory_region_find
    | SyncDirty                                                    // memory_region_sync_dirty_bitmap
    | MapBlock(len: int)                                           // cpu_physical_memory_map
    | Draw(row: int, dest: int, src: int, cols: int, colPitch: int) // fn(opaque, dest, src, cols, dest_col_pitch)
    | LinebufCreate(stride: int)                                   // qemu_pixman_linebuf_create
    | LinebufCopy(row: int, line: seq<bv8>)                        // qemu_pixman_linebuf_copy(image, cols, 0, row, linebuf)
    | LinebufRelease                                               // qemu_pixman_image_unref(linebuf)
    | Unmap(len: int)                                              // cpu_physical_memory_unmap
    | ResetDirty(offset: int, len: int)                            // memory_region_reset_dirty
    | Unref                                                        // memory_region_unref

  // ---------------------------------------------------------------------
  // The dirty bitmap

  /** memory_region_get_dirty: is any byte of [addr, addr + len) dirty?
      The bitmap is the set of dirty byte offsets within the region. */
  predicate RowDirty(dirty: set<int>, addr: int, len: int)
  {
    exists b :: b in dirty && addr <= b < addr + len
  }

  /** memory_region_reset_dirty over [offset, offset + len). */
  function Cleared(dirty: set<int>, offset: int, len: int): set<int>
  {
    set b | b in dirty && !(offset <= b < offset + len)
  }

  /** The bitmap once every reset recorded in a call log has been applied. */
  function DirtyAfter(dirty: set<int>, log: seq<Call>): set<int>
  {
    if log == [] then dirty
    else
      var d := if log[0].ResetDirty? then Cleared(dirty, log[0].offset, log[0].len) else dirty;
      DirtyAfter(d, log[1..])
  }

  // ---------------------------------------------------------------------
  // Cursors

  /** Where a cursor stands after advancing n times by `step` (n may be
      negative). Kept recursive, rather than n * step, so that proofs about
      the row loop stay linear; AdvanceIsProduct connects the two. */
  function Advance(n: int, step: int): int
    decreases if n < 0 then -n else n
  {
    if n == 0 then 0
    else if n > 0 then Advance(n - 1, step) + step
    else Advance(n + 1, step) - step
  }

  lemma {:induction false} AdvanceIsProduct(n: int, step: int)
    ensures Advance(n, step) == n * step
    decreases if n < 0 then -n else n
  {
    if n > 0 {
      AdvanceIsProduct(n - 1, step);
    } else if n < 0 {
      AdvanceIsProduct(n + 1, step);
    }
  }

  lemma AdvanceStep(n: int, step: int)
    ensures Advance(n + 1, step) == Advance(n, step) + step
  {
  }

  // ---------------------------------------------------------------------
  // Row selection

  /** What the row loop reads: the bitmap, the start of the section in its
      region, the source line length, the row count and the invalidate flag. */
  datatype ScanContext = ScanContext(dirty: set<int>, offset: int, srcWidth: int, rows: int, invalidate: int)

  /** Row i is rendered when its src_width bytes are dirty or invalidate is nonzero. */
  predicate Selected(ctx: ScanContext, i: int)
  {
    RowDirty(ctx.dirty, ctx.offset + Advance(i, ctx.srcWidth), ctx.srcWidth) || ctx.invalidate != 0
  }

  /** The rows a scan starting at `from` renders, in the order rendered:
      rows of [from, rows), strictly increasing; ScanRowsExact says they are
      exactly the selected ones. */
  function ScanRows(ctx: ScanContext, from: int): (r: seq<int>)
    ensures forall k :: 0 <= k < |r| ==> from <= r[k] < ctx.rows
    ensures forall k, l :: 0 <= k < l < |r| ==> r[k] < r[l]
    decreases ctx.rows - from
  {
    if from >= ctx.rows then []
    else (if Selected(ctx, from) then [from] else []) + ScanRows(ctx, from + 1)
  }

  /** A row is rendered if and only if it lies in [from, rows) and is selected. */
  lemma {:induction false} ScanRowsExact(ctx: ScanContext, from: int, i: int)
    ensures i in ScanRows(ctx, from) <==> from <= i < ctx.rows && Selected(ctx, i)
    decreases ctx.rows - from
  {
    if from < ctx.rows {
      ScanStep(ctx, from);
      ScanRowsExact(ctx, from + 1, i);
    }
  }

  /** One step of the row loop. */
  lemma ScanStep(ctx: ScanContext, i: int)
    requires i < ctx.rows
    ensures ScanRows(ctx, i) == (if Selected(ctx, i) then [i] else []) + ScanRows(ctx, i + 1)
  {
  }

  /** With invalidate set every row from the resume row on is rendered. */
  lemma {:induction false} ScanRowsInvalidate(ctx: ScanContext, from: int)
    requires ctx.invalidate != 0
    ensures |ScanRows(ctx, from)| == if from < ctx.rows then ctx.rows - from else 0
    ensures forall k :: 0 <= k < |ScanRows(ctx, from)| ==> ScanRows(ctx, from)[k] == from + k
    decreases ctx.rows - from
  {
    if from < ctx.rows {
      ScanRowsInvalidate(ctx, from + 1);
    }
  }

  /** Rows that lie in a range the bitmap has no dirty byte in are not rendered
      unless invalidate is set. */
  lemma {:induction false} CleanRowsNotScanned(ctx: ScanContext, from: int)
    requires ctx.invalidate == 0
    requires forall i :: from <= i < ctx.rows ==> !RowDirty(ctx.dirty, ctx.offset + Advance(i, ctx.srcWidth), ctx.srcWidth)
    ensures ScanRows(ctx, from) == []
    decreases ctx.rows - from
  {
    if from < ctx.rows {
      CleanRowsNotScanned(ctx, from + 1);
    }
  }

  // ---------------------------------------------------------------------
  // Destination geometry

  /** The destination as the row loop sees it: cols x rows pixels, src_width
      source bytes per row, and the two destination pitches (either may be
      negative). */
  datatype Geometry = Geometry(cols: int, rows: int, srcWidth: int, rowPitch: int, colPitch: int)

  function Abs(x: int): nat
  {
    if x < 0 then -x else x
  }

  /** Offset of the destination of row 0 from the surface data pointer, after
      the base has been moved for negative pitches. */
  function DestBase(g: Geometry): int
  {
    (if g.colPitch < 0 then -(g.colPitch * (g.cols - 1)) else 0)
    + (if g.rowPitch < 0 then -(g.rowPitch * (g.rows - 1)) else 0)
  }

  /** Offset of the destination of row i from the surface data pointer. */
  function DestOffset(g: Geometry, i: int): int
  {
    DestBase(g) + Advance(i, g.rowPitch)
  }

  /** Bytes spanned by the whole destination: (rows-1)*|row pitch| + (cols-1)*|col pitch|. */
  function DestExtent(g: Geometry): int
  {
    (g.rows - 1) * Abs(g.rowPitch) + (g.cols - 1) * Abs(g.colPitch)
  }

  lemma {:induction false} MulMono(a: int, b: int, c: int)
    requires 0 <= a <= b && 0 <= c
    ensures 0 <= a * c <= b * c
    decreases b - a
  {
    if a < b {
      MulMono(a + 1, b, c);
    }
  }

  /** One pitch: index n of count positions, stepped by `pitch` from a base
      moved back by (count-1)*|pitch| when the pitch is negative. */
  lemma PitchStep(count: int, pitch: int, n: int)
    requires 0 <= n < count
    ensures var base := if pitch < 0 then -(pitch * (count - 1)) else 0;
      0 <= base + n * pitch <= (count - 1) * Abs(pitch)
  {
    if pitch < 0 {
      MulMono(count - 1 - n, count - 1, -pitch);
      assert -(pitch * (count - 1)) + n * pitch == (count - 1 - n) * -pitch;
    } else {
      MulMono(n, count - 1, pitch);
    }
  }

  /** Every pixel (row i, column j) the render addresses lies within the
      destination block, whatever the signs of the pitches. */
  lemma DestWithinSurface(g: Geometry, i: int, j: int)
    requires 0 <= i < g.rows && 0 <= j < g.cols
    ensures 0 <= DestOffset(g, i) + j * g.colPitch <= DestExtent(g)
  {
    AdvanceIsProduct(i, g.rowPitch);
    PitchStep(g.rows, g.rowPitch, i);
    PitchStep(g.cols, g.colPitch, j);
  }

  /** The source row i, i.e. [i*w, i*w + w), lies in the first rows*w bytes. */
  lemma RowInBlock(i: int, w: int, rows: int)
    requires 0 <= i < rows && 0 <= w
    ensures 0 <= Advance(i, w) && Advance(i, w) + w <= Advance(rows, w)
  {
    AdvanceIsProduct(i, w);
    AdvanceIsProduct(rows, w);
    MulMono(i + 1, rows, w);
    MulMono(0, i, w);
  }

  // ---------------------------------------------------------------------
  // Reading call logs

  predicate IsReset(c: Call) { c.ResetDirty? }
  predicate IsUnmap(c: Call) { c.Unmap? }
  predicate IsUnref(c: Call) { c.Unref? }

  /** Number of calls in the log that satisfy p. */
  function Count(log: seq<Call>, p: Call -> bool): nat
  {
    if log == [] then 0 else (if p(log[0]) then 1 else 0) + Count(log[1..], p)
  }

  lemma {:induction false} CountConcat(a: seq<Call>, b: seq<Call>, p: Call -> bool)
    ensures Count(a + b, p) == Count(a, p) + Count(b, p)
  {
    if a != [] {
      assert (a + b)[1..] == a[1..] + b;
      CountConcat(a[1..], b, p);
    } else {
      assert a + b == b;
    }
  }

  /** The rows handed to the row transform (fn or the line-buffer copy), in call order. */
  function RenderedRows(log: seq<Call>): seq<int>
  {
    if log == [] then []
    else (if log[0].Draw? || log[0].LinebufCopy? then [log[0].row] else []) + RenderedRows(log[1..])
  }

  lemma {:induction false} RenderedRowsConcat(a: seq<Call>, b: seq<Call>)
    ensures RenderedRows(a + b) == RenderedRows(a) + RenderedRows(b)
  {
    if a != [] {
      assert (a + b)[1..] == a[1..] + b;
      RenderedRowsConcat(a[1..], b);
    } else {
      assert a + b == b;
    }
  }

  lemma {:induction false} DirtyAfterConcat(d: set<int>, a: seq<Call>, b: seq<Call>)
    ensures DirtyAfter(d, a + b) == DirtyAfter(DirtyAfter(d, a), b)
  {
    if a != [] {
      assert (a + b)[1..] == a[1..] + b;
      var d' := if a[0].ResetDirty? then Cleared(d, a[0].offset, a[0].len) else d;
      DirtyAfterConcat(d', a[1..], b);
    } else {
      assert a + b == b;
    }
  }

  /** A log without resets leaves the bitmap as it was. */
  lemma {:induction false} DirtyAfterNoReset(d: set<int>, log: seq<Call>)
    requires Count(log, IsReset) == 0
    ensures DirtyAfter(d, log) == d
  {
    if log != [] {
      DirtyAfterNoReset(d, log[1..]);
    }
  }
}
