# Framebuffer render driver (hw/display/framebuffer.c)

This project models the scanline render helpers that display devices use to
redraw a guest framebuffer held in guest RAM:

- `framebuffer_update_display` looks up the framebuffer's memory section,
  checks that it is RAM of exactly `src_width * rows` bytes, syncs the dirty
  bitmap, and maps the block. It then walks the rows from the caller's resume
  row to `rows`, calling the device's `drawfn` on each row whose `src_width`
  bytes are dirty (or on every row under `invalidate`). It reports the first
  and last drawn row, and resets the dirty range of the whole section when
  anything was drawn.
- `framebuffer_update_display_swap_pixman` runs the same scan on the display
  surface's width, height and stride. For each drawn row it byte-swaps the
  row into a pixman line buffer with `framebuffer_swap`, then copies the line
  into row `i` of the surface image.
- `framebuffer_swap` fills the line buffer with stride/2 byte-swapped 16-bit
  units (FB_SWAP_16_BYTES) or stride/4 byte-swapped 32-bit units
  (FB_SWAP_32_BYTES). For FB_SWAP_32_WORDS the C expression, as written,
  copies every 32-bit word unchanged although it is meant to exchange the
  word's 16-bit halves. The model keeps both: the loop as written, and a swap
  driver that uses the half exchange (see "## Findings").

The memory subsystem is represented by values:

- a `Section` for the result of `memory_region_find`;
- a `Mapping` for the result of `cpu_physical_memory_map`;
- the synced dirty bitmap as the set of dirty byte offsets in the region.

Every call a render makes to a collaborator is recorded, in order, in a call
log of `Call` values. `DirtyAfter` applies the resets in a log to the bitmap.

Modules:

- `DirtyScan` (scan.dfy): the shared pieces.
  - Collaborator values and the call log.
  - The row selection `ScanRows`, a declarative statement of which rows a scan
    renders.
  - The destination geometry with the base moved for negative pitches.
  - The row cursor `Advance`, proved equal to `i * step`.
- `FramebufferSwap` (swap.dfy): `framebuffer_swap` as a method over an
  `array<bv8>` line buffer. It is proved against `SwapLine`, a function of the
  source row, and lemmas give the byte each output position comes from.
- `FramebufferUpdate` (update.dfy): the two entry points as methods that follow
  the C code step by step. This covers:
  - the early exits;
  - cursors that advance on every row, skipped or not;
  - the `first`/`last` accumulator;
  - the reset;
  - the reference drop.

  `UpdateDisplay` is proved equal to the specification function `Render`, and
  `UpdateDisplaySwapPixman` to `RenderSwap`.
- `RenderProperties` (properties.dfy): what a render promises its caller,
  proved on `Render` and `RenderSwap`. Because the methods are proved equal to
  these functions, the properties hold of the methods too.

## Model

| member | source | states |
|---|---|---|
| FramebufferUpdate.UpdateDisplay | hw/display/framebuffer.c:26-113 | The C procedure's outcome equals `Render`: `*first_row`, `*last_row` and the ordered calls. The lemmas below prove `Render`'s behaviour: the early exits, the drawn rows, the span and the reset. |
| FramebufferUpdate.DrawRows | hw/display/framebuffer.c:83-102 | The row loop calls `fn` once per row that `ScanRows` selects from the resume row, in increasing order. Each call gets that row's source offset `i*src_width` and destination offset `base + i*dest_row_pitch`. `first`/`last` end as the first and last of those rows, and `first` is -1 when there are none. |
| FramebufferUpdate.UpdateDisplaySwapPixman | hw/display/framebuffer.c:157-238 | The pixman procedure's outcome equals `RenderSwap`: the same early exits and scan on the surface's stride and height. The line buffer is created after the map and copied once per selected row, then released before the unmap. In FB_SWAP_32_WORDS the copied line holds the half-exchanged words, not the words copied as at lines 149-150 (see "## Left out"). |
| FramebufferUpdate.CopyRows | hw/display/framebuffer.c:205-225 | The row loop of the pixman variant copies, for each selected row in order, the line buffer holding that row's swapped bytes (`LineOf`). `first`/`last` are the first and last selected rows. In FB_SWAP_32_WORDS, `LineOf` is the half exchange (see "## Left out"). |
| FramebufferUpdate.CopyRow | hw/display/framebuffer.c:214-222 | One pass of the pixman row loop at row `i`: a row whose bytes are dirty, or any row when the display is invalidated, is swapped into the line buffer and copied, and joins the rendered rows and the copies; any other row leaves them as they were. The rows so far followed by the rows `ScanRows` selects from `i + 1` are still the whole scan, and `first`/`last` stay the first and last rendered rows. In FB_SWAP_32_WORDS the copied line is the half exchange (see "## Left out"). |
| FramebufferUpdate.Conclude | hw/display/framebuffer.c:104-112 | The tail after the unmap, given the loop's `first`/`last`: with no drawn row it only drops the reference and keeps `*last_row`. Otherwise it resets the section's dirty range, reports the first and last drawn rows and then drops the reference. This equals `Finish` of the drawn rows. |
| FramebufferUpdate.SwapRow | hw/display/framebuffer.c:216-217 | After `framebuffer_swap` on source row `i`, the whole line buffer equals `LineOf` row `i`: that row's first line-stride bytes, transformed unit by unit. In FB_SWAP_32_WORDS the unit transform is the half exchange (see "## Left out"). |
| FramebufferSwap.Swap | hw/display/framebuffer.c:115-155 | The first `Covered` bytes of the line buffer receive the mode's unit transform of the source's first `Covered` bytes. The bytes past the last whole unit are unchanged. FB_SWAP_32_WORDS goes to the half exchange, not the loop as written (see "## Left out"). |
| FramebufferSwap.Swap16Loop | hw/display/framebuffer.c:126-134 | The FB_SWAP_16_BYTES loop writes stride/2 units, each a byte-swapped source half-word, and leaves the rest of the buffer as it was. |
| FramebufferSwap.Swap32Loop | hw/display/framebuffer.c:135-153 | The 32-bit loops write stride/4 units, each the mode's transform of a source word, and leave the rest of the buffer as it was. In FB_SWAP_32_WORDS the transform is the corrected half exchange (`HalvesSwapped32`), not the expression as written at lines 149-150. |
| FramebufferSwap.Swap32WordsAsWritten | hw/display/framebuffer.c:144-153 | The FB_SWAP_32_WORDS loop as written leaves the covered front of the line buffer equal to the source bytes, word for word, and the rest unchanged. |
| FramebufferSwap.Covered | hw/display/framebuffer.c:126-145 | A swap writes a whole number of units that fits in the stride. When the stride is a multiple of 4, as a pixman stride is, it writes the whole stride. |
| FramebufferSwap.Swap16Unit | hw/display/framebuffer.c:131 | `bswap16` on a loaded half-word stores its two bytes in reverse order. |
| FramebufferSwap.Swap32BytesUnit | hw/display/framebuffer.c:140 | `bswap32` on a loaded word stores its four bytes in reverse order. |
| FramebufferSwap.Swap32WordsUnit | hw/display/framebuffer.c:144-150 | Exchanging the halves of a loaded word stores bytes `[b2, b3, b0, b1]`. |
| FramebufferSwap.SwapLineAt | hw/display/framebuffer.c:126-153 | Every output byte `j` of a swapped line is source byte `SourceIndex(j)`, which lies inside the swapped range. |
| FramebufferSwap.SourceIndexTwice | hw/display/framebuffer.c:126-153 | The byte permutation of every swap mode is an involution. |
| FramebufferSwap.SwapLineTwice | hw/display/framebuffer.c:126-153 | Swapping a swapped line again with the same mode restores the source bytes. |
| FramebufferSwap.Words32AsWrittenCopies | hw/display/framebuffer.c:149-150 | With C precedence the FB_SWAP_32_WORDS expression returns every word unchanged. |
| FramebufferSwap.Words32AsWrittenUnit | hw/display/framebuffer.c:149-150 | As written, one FB_SWAP_32_WORDS unit is stored back byte for byte. |
| FramebufferSwap.Words32AsWrittenKeepsHalves | hw/display/framebuffer.c:149-150 | On 0x12345678 the expression as written gives 0x12345678, while the half-word exchange gives 0x56781234. |
| FramebufferSwap.HalvesSwapped32Exchanges | hw/display/framebuffer.c:144-150 | The corrected operation moves the high half to the low half and the low half to the high half, and is its own inverse. |
| DirtyScan.AdvanceIsProduct | hw/display/framebuffer.c:86-101 | A cursor advanced `n` times by `step` from 0 sits at `n * step`, the same offset as the C pre-advance `i * src_width`. |
| DirtyScan.ScanRows | hw/display/framebuffer.c:90-98 | The rows a scan renders lie in `[resume row, rows)` and are strictly increasing. |
| DirtyScan.ScanRowsExact | hw/display/framebuffer.c:90-98 | A row is rendered exactly when it lies in `[resume row, rows)` and either its `src_width` bytes at `offset_within_region + i*src_width` hold a dirty byte or `invalidate` is nonzero. |
| DirtyScan.ScanRowsInvalidate | hw/display/framebuffer.c:93 | Under `invalidate`, every row from the resume row to `rows - 1` is rendered, in order. |
| DirtyScan.CleanRowsNotScanned | hw/display/framebuffer.c:91-93 | Without `invalidate`, a scan over rows that have no dirty byte renders nothing. |
| DirtyScan.DestWithinSurface | hw/display/framebuffer.c:77-88 | With the base moved back for negative pitches, every pixel `(i, j)` lands in `[0, (rows-1)*|row pitch| + (cols-1)*|col pitch|]`. |
| DirtyScan.RowInBlock | hw/display/framebuffer.c:86-100 | Source row `i`, bytes `[i*src_width, i*src_width + src_width)`, lies inside the mapped `rows * src_width` bytes. |
| RenderProperties.RejectionIsNoop | hw/display/framebuffer.c:52-75 | A wrong-sized or non-RAM section, a null map or a short map leaves `*first_row` at -1 and `*last_row` unchanged. It draws no row, resets nothing and leaves the bitmap as it was. |
| RenderProperties.ReleasesOnce | hw/display/framebuffer.c:56-112 | Every render drops the section's reference exactly once, as its last call. It unmaps exactly once if the section check passed and the map returned a block, and never otherwise. |
| RenderProperties.RenderedRowsAreScanned | hw/display/framebuffer.c:84-102 | On a resolved section, the rows passed to `fn`, in call order, are exactly `ScanRows` from the resume row. |
| RenderProperties.ReportedSpan | hw/display/framebuffer.c:93-110 | `*first_row` is -1 exactly when no row in `[resume row, rows)` is selected, and `*last_row` is then unchanged. Otherwise `resume <= first <= last < rows`, both ends are selected and no row outside `[first, last]` is. |
| RenderProperties.InvalidateSpan | hw/display/framebuffer.c:93-110 | Under `invalidate` with resume row < `rows`, the drawn rows are resume..rows-1 in order, and the reported span is `[resume, rows-1]`. |
| RenderProperties.ResetIffRendered | hw/display/framebuffer.c:103-108 | The bitmap is reset exactly when some row was drawn. The reset happens once, over `[offset_within_region, offset_within_region + src_width*rows)`, including rows before the resume row. |
| RenderProperties.ResetClearsAllRows | hw/display/framebuffer.c:107-108 | After a render that drew a row, no row of the section is dirty any more, and dirty bytes outside the section are kept. |
| RenderProperties.RenderAgainFindsNothing | hw/display/framebuffer.c:90-108 | A second render without `invalidate`, on the bitmap the first one left, reports no row (-1), keeps `*last_row`, and leaves that bitmap as it is. |
| RenderProperties.DrawOfRowInBounds | hw/display/framebuffer.c:86-101 | The `fn` call for a row of the surface reads that row inside the mapped block and writes destination pixels inside the destination extent. |
| RenderProperties.DrawsStayInBounds | hw/display/framebuffer.c:76-101 | Every `fn` call a render makes reads inside the mapped block and writes inside the destination extent. |
| RenderProperties.SwapRenderMatchesRender | hw/display/framebuffer.c:167-238 | With `cols`/`rows`/`src_width` taken from the surface, the pixman variant matches the plain render in everything but how a row is transformed. It reports the same span, renders the same rows in the same order, drops and unmaps the same number of times and leaves the same bitmap. |
| RenderProperties.LinebufLifecycle | hw/display/framebuffer.c:199-228 | After a successful map, the line buffer is created once right after the map. The copies follow it, and it is released once right after them and before the unmap. A rejected render creates no line buffer and makes no copy. |
| RenderProperties.CopiedLinesRestore | hw/display/framebuffer.c:213-221 | Every copy goes to a row of the surface with a line of line-stride bytes. Swapping that line again gives back the start of that row of the framebuffer. |
| RenderProperties.CopyRestores | hw/display/framebuffer.c:216-217 | The line swapped from row `i`, swapped again, is the first line-stride bytes of row `i`. |

`Render`, `RenderSwap`, `Rejection` and `Finish` in `FramebufferUpdate` are
specification functions. `Render` and `RenderSwap` state the two procedures
as a whole (hw/display/framebuffer.c:52-113 and 181-238). `Rejection` states
the three early exits (:56-75), and `Finish` the unmap, reset and reference
drop (:103-112). `Scanned` and `SwapScanned` are the calls up to the unmap,
and `FinishTail` the calls after it. The lemmas above state their properties.

## Left out

- `memory_region_find`, `memory_region_sync_dirty_bitmap`,
  `cpu_physical_memory_map`/`unmap`, `memory_region_reset_dirty` and
  `memory_region_unref` belong to the memory subsystem. Their results are
  inputs (`Section`, `Mapping`, the synced dirty set), and each call appears
  only as an entry in the call log. The sync itself is not modelled: the
  dirty set is the bitmap as it stands after the sync.
- The dirty bitmap is byte-granular here. The real bitmap tracks target pages,
  so a row is dirty when any page it touches is dirty.
- The `drawfn` body is per-device pixel conversion and is only recorded, as a
  `Draw` entry with the row, the destination and source offsets, `cols` and
  `dest_col_pitch`.
- pixman is a foreign library. `qemu_pixman_linebuf_create(format, cols)` is a
  byte array whose length is the line buffer's stride, and the stride stands
  in for `format` and `cols`. `qemu_pixman_linebuf_copy` is a `LinebufCopy`
  entry carrying the row and the line's bytes. `qemu_pixman_image_unref` is a
  `LinebufRelease` entry.
- UpdateDisplaySwapPixman: requires the line buffer's stride to be a multiple
  of 4 and at most `src_width`. A pixman stride is a multiple of 4. A stride
  larger than the source line would make the C code read past the row, which
  the model excludes.
- The `assert`s on `mem` and on `offset_within_address_space == base` are left
  out. The first is implied by a RAM section of the right size. The second
  holds for every section `memory_region_find` returns for `base`.
- UpdateDisplay: requires `src_width * rows` to be a non-negative value that
  fits in a C `int`. Overflow of that product is not modelled.
- UpdateDisplay: the C `int` products `dest_col_pitch * (cols - 1)`,
  `dest_row_pitch * (rows - 1)` and `i * dest_row_pitch` (lines 79, 81 and 88)
  are computed on unbounded integers, so their overflow is not modelled.
- DestWithinSurface: the bound is proved on unbounded integers. For the C
  code it holds only while the pitch products above fit in an `int`.
- DrawOfRowInBounds: proved on unbounded integers, like `DestWithinSurface`.
  For the C code it holds only while the pitch products fit in an `int`.
- DrawsStayInBounds: proved on unbounded integers, like `DestWithinSurface`.
  For the C code it holds only while the pitch products fit in an `int`.
- UpdateDisplaySwapPixman: requires `stride * height` to be a non-negative
  value that fits in a C `int`. Overflow of that product is not modelled.
- UpdateDisplay: requires a non-negative resume row. A negative one would move
  the source pointer before the mapped block.
- UpdateDisplaySwapPixman: requires a non-negative resume row, for the same
  reason.
- Swap: requires a swap mode other than FB_SWAP_NONE, where the C code
  reaches `g_assert_not_reached`.
- Host endianness: units are loaded and stored little-endian. Every swap only
  permutes the bytes of a unit, so the byte-level results are the same on a
  big-endian host.
- Raw pointers and `surface_data`: the destination is integer byte offsets
  from the surface data pointer. Destination memory is not modelled, only
  where each `fn` call writes.
- Refresh scheduling and concurrent updates of the bitmap by the guest are the
  caller's concern and are not modelled.
- The loops (`DrawRows`, `CopyRows`, `SwapRow`), the body of the pixman row
  loop (`CopyRow`) and the shared tail after the unmap (`Conclude`) are
  separate methods called by the entry points,
  which keeps each proof small. Their statements are those of the C code,
  except the FB_SWAP_32_WORDS unit described in the lines that follow.
- Swap: for FB_SWAP_32_WORDS it calls `Swap32Loop`, which writes every word
  with its 16-bit halves exchanged (`HalvesSwapped32`). The code as written at
  hw/display/framebuffer.c:149-150 copies every word unchanged. That loop is
  modelled separately as `Swap32WordsAsWritten` and is not called by `Swap`.
- Swap32Loop: in FB_SWAP_32_WORDS each unit is `HalvesSwapped32`, the
  corrected form of lines 149-150, not the expression as written.
- SwapRow: in FB_SWAP_32_WORDS the line buffer holds the half-exchanged words
  of the row. Lines 149-150 as written leave it equal to the row's first
  line-stride bytes.
- CopyRow: in FB_SWAP_32_WORDS the copied line is the half-exchanged row, not
  the unchanged bytes that lines 149-150 as written would leave.
- CopyRows: in FB_SWAP_32_WORDS each copied line is the half-exchanged row,
  not the row copied unchanged as lines 149-150 do.
- UpdateDisplaySwapPixman: in FB_SWAP_32_WORDS the `LinebufCopy` entries
  carry half-exchanged lines, not the unchanged rows that lines 149-150 as
  written copy. The other two modes follow the code.

## Findings

| source | as written | input that shows it | evidently intended | confidence | as-written member | corrected member |
|---|---|---|---|---|---|---|
| hw/display/framebuffer.c:149-150 | `(*s32 & 0x0000ffff << 16) \| (*s32 & 0xffff0000 >> 16)`. Shifts bind tighter than `&`, so the word is masked with 0xffff0000 and with 0x0000ffff, and it is returned unchanged. | the word 0x12345678 gives 0x12345678 | exchange the 16-bit halves: 0x12345678 becomes 0x56781234 | high; not executed | FramebufferSwap.Words32AsWrittenKeepsHalves | FramebufferSwap.HalvesSwapped32Exchanges |

`Words32AsWritten` and the loop `Swap32WordsAsWritten` model the expression
as written, which copies every word. The swap driver (`Swap`, `Swap32Loop`,
`SwapUnit`) uses the corrected `HalvesSwapped32`, so the line-level lemmas
(`SwapLineAt`, `SwapLineTwice`, `CopiedLinesRestore`) describe the intended
half-word exchange for FB_SWAP_32_WORDS.
