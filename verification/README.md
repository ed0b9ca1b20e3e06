# Animated-GIF frame compositor (drawing.c) in Dafny

This project models the frame compositor of android-gif-drawable's native code. The compositor
turns decoded, palette-indexed GIF frames into the ARGB canvas the caller displays. On each
call it does three things:

- It prepares the canvas. Frame 0 starts from a background fill. Every later frame starts
  with the disposal step for the frame before it (GIF89a, section 23: restore to background,
  restore to previous).
- It draws the current frame through its colour table, honouring the transparency index.
- It advances the frame index and applies the loop budget and the rewind policy.

Buffers are `seq<Argb>` of length `stride * SHeight`. Pixel (x, y) is at index `y * stride + x`
(`Canvas.Addr`, the GET_ADDR macro). Each loop of the C code is a Dafny method with loop
invariants. Each method is proved equal to a pixel-by-pixel reference function:

- `BlitNormal` equals `Blitted`.
- `ClearRect` equals `Cleared`.
- `DisposeFrameIfNeeded` equals `Dispose`.
- `GetBitmap` equals `Step`.

The lemmas state the properties of those reference functions in screen coordinates.

Modules, leaf to root:

- `Pixels`: the records (`Rgb`, `Argb`, `Frame`, `Screen`, `Disposal`).
- `Arith`: quotient and remainder facts used by the addressing and the schedule.
- `Canvas`: addressing and the 32-bit fill.
- `Palette`: table choice and the grey default table.
- `Blit`: blitNormal and drawFrame.
- `Disposal`: checkIfCover and disposeFrameIfNeeded.
- `Schedule`: index, loop and rewind policy, and multi-call schedules.
- `Bitmap`: getBitmap.
- `Memset`: the byte-wise fill fallback.

The session (`currentIndex`, `currentLoop`, `loopCount`, the backup pointer and the decoder's
error field) is a value that each call takes and returns, instead of a mutated struct. Three
outside results are inputs to the model:

- `alloc`: the result of `malloc`. None means failure; otherwise it holds the new buffer's
  uninitialised contents.
- `rewindOk`: the result of the rewind callback.
- `made`: the result of `GifMakeMapObject`.

## Model

| member | source | states |
|---|---|---|
| Canvas.FillRange | src/main/jni/drawing.c:3-11 | MEMSET_ARGB as a 32-bit per-pixel fill: the `n` pixels from `start` become the value, and every other pixel is unchanged |
| Palette.GenDefColorMap | src/main/jni/drawing.c:153-164 | the result is a table exactly when the allocator gave one; entry i of that 256-entry table is (i, i, i) for every i |
| Blit.PaintRow | src/main/jni/drawing.c:19-37 | one frame row: each pixel takes its palette colour with alpha 0xFF, except a pixel whose byte equals the transparency index, which keeps its prior value; pixels outside the run are unchanged |
| Blit.BlitNormal | src/main/jni/drawing.c:13-38 | the stride-stepping row loop yields exactly the reference blit `Blitted` over the whole buffer |
| Blit.BlitInside | src/main/jni/drawing.c:19-37 | for every pixel (x, y) of the frame rectangle: if its raster byte `raster[(y-Top)*Width + (x-Left)]` is the transparency index, the pixel keeps its RGBA; otherwise it becomes the palette colour with alpha 0xFF; with no transparency index every pixel is painted |
| Blit.BlitOutside | src/main/jni/drawing.c:13-37 | every buffer pixel outside the frame rectangle, stride padding included, is unchanged by the blit |
| Palette.ChoosePalette | src/main/jni/drawing.c:40-48 | the table used is the frame's local table whenever it has one, else the screen's global table, else the default table |
| Blit.DrawFrame | src/main/jni/drawing.c:40-51 | every drawn pixel of the frame rectangle (byte not the transparency index) becomes opaque with the colour of its byte in the local table, else the global table, else the default table; every other pixel keeps its value |
| Blit.DefaultRampLookup | src/main/jni/drawing.c:40-50 | with no local and no global table, drawFrame uses the default table, so a drawn byte v becomes grey (v, v, v), fully opaque |
| Disposal.Covers | src/main/jni/drawing.c:53-64 | when checkIfCover holds, the target is at least as wide and as tall as the covered frame and, for a non-empty covered frame, contains its first and last pixel |
| Disposal.CoversIsContainment | src/main/jni/drawing.c:53-64 | for a non-empty covered frame, checkIfCover's edge comparison holds exactly when every pixel of the covered rectangle lies in the target rectangle |
| Disposal.ClearRect | src/main/jni/drawing.c:90-105 | clipping the width to SWidth and the height to SHeight, then zero-filling row by row, yields the reference `Cleared` |
| Disposal.BackgroundClearsClippedRect | src/main/jni/drawing.c:90-105 | restore to background zeroes exactly [Left, min(Left+Width, SWidth)) x [Top, min(Top+Height, SHeight)) and changes no other pixel, padding included |
| Disposal.DisposeWith | src/main/jni/drawing.c:66-116 | the effect of one disposal step. The backup is allocated only when a PREVIOUS disposal is involved and none exists. A failed allocation leaves the canvas alone, flags out-of-memory and leaves no backup. Background clears the clipped rectangle. PREVIOUS followed by PREVIOUS turns the local pointer swap into "canvas := old backup, backup kept". Whenever the next frame is PREVIOUS, the backup equals the canvas afterwards. In every other case the canvas is untouched |
| Disposal.Dispose | src/main/jni/drawing.c:76-115 | the skip decision of line 89: when the next frame is opaque and covers the current one, the canvas is left as it is (and a next PREVIOUS frame snapshots it). Otherwise restore to background clears the clipped rectangle, and PREVIOUS followed by PREVIOUS makes the canvas the old backup, or the new buffer's contents when the backup was only just allocated. Any other unskipped step leaves the canvas alone. Out of memory exactly when a backup is needed, absent, and cannot be allocated; then the canvas is kept and no backup exists. Otherwise a backup exists afterwards exactly when one did before or a PREVIOUS disposal is involved, an existing one is kept unless the next frame is PREVIOUS, and a next PREVIOUS frame leaves the backup equal to the canvas |
| Disposal.FreshBackupShows | src/main/jni/drawing.c:76-115 | when frames 0 and 1 are both PREVIOUS, the step into frame 1 makes the canvas the just-allocated buffer's contents, unless frame 1 is opaque and covers frame 0, in which case the canvas is kept |
| Disposal.DisposeFrameIfNeeded | src/main/jni/drawing.c:66-116 | the imperative step, with two buffers and two local buffer handles swapped and then memcpy'd, has exactly the effect `Dispose` states |
| Disposal.PreviousRoundTrip | src/main/jni/drawing.c:106-115 | entering frame F (disposal PREVIOUS) snapshots the canvas. Whatever is drawn next, leaving F for a PREVIOUS frame that is not skipped restores that snapshot and keeps the backup |
| Disposal.CoverSkipInvisible | src/main/jni/drawing.c:89-105 | when the next frame is opaque, covers the current one and is not PREVIOUS, skipping the restoration changes neither the canvas after the next blit nor the backup |
| Disposal.CoverSkipChangesBackup | src/main/jni/drawing.c:89-115 | when the next frame is PREVIOUS the skip is visible: on a 1x1 screen the backup keeps the old pixel where the unskipped step would store a cleared one |
| Schedule.Advance | src/main/jni/drawing.c:136-150 | after drawing frame `index` of `count`: continuing moves to (index+1) mod count. The step stops exactly on the last frame when 0 < loopCount <= loop+1, and then keeps the index there and adds one loop. It fails exactly on the last frame when the budget still allows a rewind (loop count 0, or loop+1 < loopCount) and the rewind callback fails; only then is the index left at `count`, with the loop counter unchanged. A successful rewind adds one loop exactly when the loop count is finite. With loop count 0 the step never stops |
| Schedule.FiniteLoopSchedule | src/main/jni/drawing.c:136-150 | with loop count L > 0, N frames and successful rewinds, played from the start: calls 1 to L*N-1 continue, call L*N stops on frame N-1, and every later call stops too, each adding one to the loop counter |
| Schedule.InfiniteSchedule | src/main/jni/drawing.c:136-143 | with loop count 0 and successful rewinds every call continues; after n calls the index is (index+n) mod N and the loop counter is unchanged |
| Schedule.StoppedStaysStopped | src/main/jni/drawing.c:144-148 | from the clamped last frame with the budget spent, every later call stops again, keeps the index and adds one loop |
| Bitmap.InitialPixel | src/main/jni/drawing.c:119-128 | the frame-0 fill is opaque exactly when a global table exists and frame 0 has no transparency index, and is then the global table's background colour; otherwise it is the all-zero pixel |
| Bitmap.Step | src/main/jni/drawing.c:118-151 | one getBitmap call. It returns the drawn frame's delay or 0; before the last frame it returns the delay and moves the index on by one with the loop counter unchanged. The session can be called again unless the rewind was attempted and failed; such a call returns 0, leaves the index at ImageCount and keeps the loop counter. The error field changes only to NotEnoughMem, and only when a backup was needed on frame index > 0, none existed and the allocation failed. The backup carries over: frame 0 keeps it; on a later frame one exists afterwards exactly when one existed before, or a PREVIOUS disposal is involved and the allocation succeeded; an existing backup is kept when the frame is not PREVIOUS; and a PREVIOUS frame is drawn over exactly the snapshot the backup then holds |
| Bitmap.GetBitmap | src/main/jni/drawing.c:118-151 | the imperative call (fill or dispose, blit, then advance) has exactly the effect `Step` states |
| Bitmap.FirstFrameCanvas | src/main/jni/drawing.c:119-133 | on frame 0 each pixel outside the frame, padding included, and each transparent frame pixel is the opaque background colour when a global table exists and frame 0 is opaque, and zero otherwise. Every other frame pixel takes its palette colour |
| Bitmap.OutOfMemoryStillDraws | src/main/jni/drawing.c:131-133 | when the backup cannot be allocated, the error field becomes NotEnoughMem and no backup exists. The current frame is still drawn over the undisposed canvas |
| Bitmap.LaterPassFrameOne | src/main/jni/drawing.c:76-133 | on a later pass with frames 0 and 1 both PREVIOUS and no coverage skip, the backup kept through frame 0 is not reallocated, and frame 1 is drawn over that snapshot |
| Bitmap.StoppedCallsRepeat | src/main/jni/drawing.c:144-148 | on the last frame with the budget spent a call returns 0, leaves the index on the last frame and adds one loop, so it can be repeated forever |
| Bitmap.ContinueReturnsDelay | src/main/jni/drawing.c:134-143 | when the call continues (successful rewind, or not at the end of the budget), it returns the frame's DelayTime. The index becomes (index+1) mod ImageCount, and the loop counter grows only on a rewind with a finite loop count |
| Memset.MemsetPixel | src/main/jni/drawing.c:10 | the byte-wise fallback stores the low byte of the requested word into all four bytes of a pixel |
| Memset.MemsetUniformWordsAgree | src/main/jni/drawing.c:10 | for the zero fill and the all-ones fill of the blitter, the byte-wise fallback gives the intended pixels |
| Memset.MemsetBackgroundFill | src/main/jni/drawing.c:120-125 | through the fallback the frame-0 background fill stores (red, red, red, red); this equals the intended opaque background only for white |
| Memset.MemsetBackgroundCounterexample | src/main/jni/drawing.c:124 | the background (0x10, 0x20, 0x30) is filled as (0x10, 0x10, 0x10) with alpha 0x10 |

## Behaviour of the code worth knowing

The model follows the code in each of these cases. Each case is proved, or can be read off
a contract:

- The coverage skip (drawing.c:89) is not always invisible. If the next frame is disposed
  to PREVIOUS, the snapshot it takes holds the current frame's pixels instead of the restored
  ones (`Disposal.CoverSkipChangesBackup`). It is invisible otherwise
  (`Disposal.CoverSkipInvisible`).
- With a loop count L and N frames, the L*N-th call already returns 0. It still draws
  frame N-1 (`Schedule.FiniteLoopSchedule`).
- The later stopped calls are not no-ops. Each one draws frame N-1 again. With N > 1 it
  first disposes frame N-2; with N == 1 it first repeats the frame-0 fill (drawing.c:119-128).
- When a PREVIOUS frame is followed by a frame that is not PREVIOUS, the canvas is never
  restored (`Disposal.DisposeWith`). This differs from GIF89a, section 23.
- Frame 0 does not go through the disposal step. If frames 0 and 1 are both PREVIOUS, the
  backup is allocated on the way into frame 1 and its uninitialised contents are copied into
  the canvas, unless frame 1 is opaque and covers frame 0, in which case the coverage skip
  keeps the canvas (`Disposal.FreshBackupShows`). This holds on the first pass only. Frame 0
  never touches the backup, so after a rewind the step into frame 1 finds it allocated and
  draws frame 1 over the snapshot the previous pass left behind
  (`Bitmap.LaterPassFrameOne`).
- A failed rewind leaves the index one past the last frame. Such a session is no longer
  `Bitmap.Ready`, so the model has no next call. The code would read past the frame metadata.

## Findings

| source | as written | input that shows it | evidently intended | confidence | as-written member | corrected member |
|---|---|---|---|---|---|---|
| src/main/jni/drawing.c:10 | without an ARM fill routine, MEMSET_ARGB is `memset`, which stores the low byte of its value into every byte, so the frame-0 background fill (line 124) writes (red, red, red) with alpha red | background colour (0x10, 0x20, 0x30) gives pixels (0x10, 0x10, 0x10) with alpha 0x10 instead of (0x10, 0x20, 0x30) with alpha 0xFF | every pixel receives the full 32-bit word, as the ARM routines do | medium, not executed; assumes the `argb` layout red, green, blue, alpha in a little-endian word (gif.h is not part of this model) | Memset.MemsetBackgroundCounterexample | Canvas.FillRange |

The rest of the model (`Bitmap.GetBitmap`, `Disposal.ClearRect`) fills through
`Canvas.FillRange`, the per-pixel fill.

## Left out

- `arm_memset32` and `memset32_neon` (drawing.c:3-8) are architecture-specific fill
  routines. They are modelled only through their effect, a per-pixel 32-bit fill.
- `getEnv`, `throwException` and `abort` (drawing.c:79-83) are JNI plumbing. The model keeps
  their observable result: the out-of-memory flag and the error field. It does not model the
  abort taken when no JNI environment exists.
- `malloc` (drawing.c:77) and `rewindFunction` (drawing.c:138) are calls outside this code.
  They become the inputs `alloc` and `rewindOk`.
- `GifMakeMapObject` (drawing.c:154) belongs to giflib. It becomes the input `made`: a
  256-entry table or a failure.
- LZW decoding, `rasterBits` and the `infos[]` metadata come from the decoder. Each frame
  carries its own raster and control fields instead. The C struct layouts and the host
  bitmap object are not part of this model.
- Frames must fit the buffer (`Left + Width <= stride`, `Top + Height <= SHeight`; the
  decoder arranges this). Every raster byte that is drawn must name an entry of the chosen
  table (`Blit.Resolvable`). The decoder guarantees both for the frames it hands over. A
  frame with `Left + Width > stride` would make the row loop at drawing.c:22-24 run on into
  the start of the next row, and past the buffer on the last row; that wrap is not modelled.
  An index past the end of the table is undefined behaviour.
- A background-disposed frame must start on the screen (`Left <= SWidth`,
  `Top <= SHeight`), because the unsigned clipping at drawing.c:93-99 would otherwise wrap.
- If `genDefColorMap` fails, the default table is NULL. The model passes it to `Bitmap.Step`
  as the empty table. `Blit.Resolvable` then demands that a frame without a local or global
  table has only transparent bytes, which matches drawing.c:30-31 never reading the table
  for them; any other such frame would dereference NULL.
- The background colour index must name an entry of the global table when frame 0 is filled
  with it (`Bitmap.WellFormed`). drawing.c:122 reads `Colors[SBackGroundColor]` without a
  bounds check, and an index past the end of the table is undefined behaviour.
- `Disposal` has the four disposal values 0 to 3. The Graphic Control Extension field is
  3 bits wide. The code compares it only with DISPOSE_BACKGROUND (2) and DISPOSE_PREVIOUS (3),
  so the reserved values 4 to 7 behave like 0 and 1, which the model does not list apart.
- Integer widths are not modelled. The loop counters are `uint_fast16_t` and the delay is
  returned as `uint_fast16_t`; the model takes them as unbounded.
- Disposal.CoversIsContainment: stated only for covered frames of non-zero size. For an
  empty rectangle the edge test can fail even though containment holds trivially.
- Bitmap.Step: the contract gives the delay, the index and loop counter before the last
  frame and after a failed rewind, the readiness, the error field and the backup. The index
  and loop counter after the last frame with a successful rewind or a spent budget are
  stated by `Bitmap.ContinueReturnsDelay` and `Bitmap.StoppedCallsRepeat`. The canvas it
  produces is described by `Bitmap.GetBitmap`, `Bitmap.FirstFrameCanvas` and
  `Bitmap.OutOfMemoryStillDraws`, and by the `Disposal` and `Blit` lemmas.
