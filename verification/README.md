# Display back-buffer model of ZebraLoader's `gop.c`

This project models the display adapter of the ZebraLoader boot loader
(`src/dev/gop.c`). The adapter sits on the Graphics Output Protocol of
the UEFI Specification (section 12.9). It keeps an off-screen back buffer
of 32-bit pixel slots the size of the firmware's framebuffer. It computes
the slot of a pixel from the scanline pitch. It copies the back buffer
into the framebuffer, either whole or one rectangle at a time. It also
cycles through the modes the firmware advertises.

Modules, one per concern of the file:

- `GopTypes` holds the `UINT32` type `u32` and `Wrap`, the truncation that
  C unsigned arithmetic performs. It also holds the mode record: the number
  of modes, the horizontal and vertical resolution, the pixels per scan
  line and the framebuffer byte size.
- `GopGeometry` holds width, height, pitch, size and slot index, all with
  explicit 32-bit wrap-around. It also holds `Column` and `Row`, the
  inverse of the index.
- `GopRegion` holds `Covered`, the set of slots a rectangle touches, and
  its characterisation by column and row.
- `GopCycle` holds the static mode cursor of `gop_next_mode` and its cycle
  lemmas.
- `GopDisplay` holds the adapter state (mode record, mode count, cursor,
  back buffer) and the operations on it.
- `GopArith` holds division facts the solver needs spelled out.

Buffers are modelled as sequences of `u32` slots. Each operation returns
the new contents of the buffer it writes. "Writes no other memory" becomes
"every other slot of the returned sequence equals the old one". The swap
operations receive the back buffer inside the adapter state and return
only the framebuffer, so they cannot change the back buffer. The
framebuffer is firmware memory at `FrameBufferBase`. It is a parameter of
the swaps, not part of the adapter state.

Firmware calls become parameters. `NextMode` returns the mode it asks
`SetMode` for. It takes the mode record the firmware reports afterwards
as an input. `AllocatePool` becomes a caller-supplied sequence of
uninitialised slots.

Two details of the cursor are easy to misread, and the model follows the
code in both:

- The cursor is post-incremented. A call requests the cursor's value from
  before the increment, not the advanced one.
- With exactly one mode, the first call requests mode 1, which does not
  exist. Afterwards the cursor stays at 0. So it never returns to its
  starting value 1 (`FirstRequestWithOneMode`, `CursorSettlesAtZero`).
  Only with at least two modes does every `numModes` calls bring the
  cursor back (`CursorPeriodic`).

## Model

| member | source | states |
|---|---|---|
| `GopGeometry.Width` | src/dev/gop.c:112-115 | no contract of its own: the horizontal resolution of the current mode record; `VisibleIndexInBuffer` states that every column below it lands inside the buffer |
| `GopGeometry.Height` | src/dev/gop.c:121-124 | no contract of its own: the vertical resolution of the current mode record; `Size`, `IndexInBuffer` and `VisibleIndexInBuffer` state that every row below it lands inside the buffer |
| `GopGeometry.Pitch` | src/dev/gop.c:139-142 | the pitch is a multiple of 4 bytes; when `4 * PixelsPerScanLine` fits in 32 bits it equals that product, so pitch / 4 is the scanline's slot count |
| `GopGeometry.Size` | src/dev/gop.c:93-96 | the size is a multiple of 4; when the padded buffer fits in 32 bits it is `4 * PixelsPerScanLine * VerticalResolution` bytes, i.e. one slot per padded pixel |
| `GopGeometry.Index` | src/dev/gop.c:103-106 | without 32-bit wrap-around, the index of (x, y) is `x + y * PixelsPerScanLine`: the stride is the scanline, not the visible width |
| `GopGeometry.IndexInBuffer` | src/dev/gop.c:103-106 | every pixel with `x < PixelsPerScanLine`, `y < VerticalResolution` of a buffer that fits in 32 bits has an unwrapped index below `PixelsPerScanLine * VerticalResolution = Size / 4` |
| `GopGeometry.VisibleIndexInBuffer` | src/dev/gop.c:112-124 | every pixel inside `Width` by `Height` has a slot inside the padded buffer when the scanline is at least as wide as the visible row |
| `GopGeometry.PixelOfIndex` | src/dev/gop.c:103-106 | `Column` and `Row` recover (x, y) from the index of any pixel of the padded buffer |
| `GopGeometry.IndexOfPixel` | src/dev/gop.c:103-106 | conversely, the index of (`Column(i)`, `Row(i)`) is `i` for every slot of the padded buffer |
| `GopGeometry.IndexInjective` | src/dev/gop.c:103-106 | two pixels of the padded buffer share a slot if and only if they are the same pixel |
| `GopDisplay.ClearBackbuffer` | src/dev/gop.c:38-45 | the first `FrameBufferSize / 4` back-buffer slots become 0, all later slots and the rest of the adapter state are unchanged |
| `GopDisplay.ClearIdempotent` | src/dev/gop.c:38-45 | clearing an already cleared buffer gives back the same buffer |
| `GopDisplay.ClearedWholeIsZero` | src/dev/gop.c:38-45 | clearing as many slots as the buffer has leaves every slot 0, whatever it held |
| `GopDisplay.Init` | src/dev/gop.c:47-86 | the new back buffer has one zero slot per framebuffer slot and the mode count is `MaxMode`; the mode cursor, a static of `gop_next_mode`, is passed through unchanged (it is 1 at the first initialisation of a boot) |
| `GopDisplay.SwapBuffers` | src/dev/gop.c:166-174 | framebuffer slot `i` equals back-buffer slot `i` for every `i < FrameBufferSize / 4`; later framebuffer slots keep their values |
| `GopDisplay.SwapBuffersAt` | src/dev/gop.c:150-164 | for every pixel (x, y) of `[sx, ex) x [sy, ey)` the framebuffer slot `Index(x, y)` takes the back buffer's value; a slot that is the index of no pixel of the rectangle keeps its value; an empty rectangle leaves the framebuffer unchanged |
| `GopDisplay.VisibleRectInBuffers` | src/dev/gop.c:150-164 | a rectangle inside the visible area only touches slots inside both buffers, given a scanline at least the visible width and a framebuffer holding the padded buffer |
| `GopRegion.EmptyCoversNothing` | src/dev/gop.c:156-158 | a rectangle with `sx >= ex` or `sy >= ey` covers no slot |
| `GopRegion.CoveredIff` | src/dev/gop.c:150-164 | inside the padded buffer a slot is touched by the rectangle if and only if its column lies in `[sx, ex)` and its row in `[sy, ey)` |
| `GopRegion.FullRectCoversBuffer` | src/dev/gop.c:150-164 | the rectangle of the whole padded buffer touches exactly the slots below `PixelsPerScanLine * VerticalResolution` |
| `GopRegion.SmallRectExample` | src/dev/gop.c:150-164 | on a 4 by 4 display without padding, the rectangle `[1, 3) x [1, 3)` touches slots 5, 6, 9 and 10 and no other |
| `GopDisplay.NextMode` | src/dev/gop.c:176-189 | the requested mode is the old cursor; the new cursor is the old one plus 1, or 0 once that reaches the mode count, and lies below a nonzero mode count; the mode count is kept; the back buffer is all zero and sized for the new mode |
| `GopCycle.Advance` | src/dev/gop.c:178-184 | the next cursor is the old cursor plus 1 exactly when that is below the mode count, and 0 otherwise (so always 0 with no modes); it lies below any nonzero mode count and is the successor modulo the count of a cursor below it |
| `GopCycle.RequestedModeExists` | src/dev/gop.c:178-184 | every requested mode exists when there are at least two modes, and every request after the first one when there is exactly one |
| `GopCycle.FirstRequestWithOneMode` | src/dev/gop.c:178-184 | with one mode the first call requests the nonexistent mode 1 and the cursor then drops to 0 |
| `GopCycle.CursorClosedForm` | src/dev/gop.c:178-184 | with at least two modes call `k` requests mode `(k + 1) mod numModes`: modes 1, 2, ..., numModes - 1, 0, 1, ... |
| `GopCycle.CursorSettlesAtZero` | src/dev/gop.c:178-184 | with at most one mode every call after the first requests mode 0 |
| `GopCycle.CursorPeriodic` | src/dev/gop.c:178-184 | `numModes` more calls bring the cursor back to its value, from the start with at least two modes and from the first call on otherwise |
| `GopCycle.CallRequestingMode` | src/dev/gop.c:178-184 | with at least two modes, any `numModes` consecutive calls include one that requests a given mode |
| `GopCycle.CallsWithinCycleDistinct` | src/dev/gop.c:178-184 | with at least two modes, no two of any `numModes` consecutive calls request the same mode, so each mode is requested exactly once per cycle |

## Left out

- `get_gop` is not modelled. It covers `LocateProtocol`, the error message and the non-returning `halt`. These are firmware lookup, console output and process termination.
- Init: the `QueryMode` call and the `SetMode(0)` retry for firmware that reports "not started" are not modelled, because their outcome depends on the firmware. `Init` reads the mode count from the mode record it is given and promises a back buffer sized for that record. In the source the retry switches the display to mode 0 after the back buffer was already allocated for the previous mode record, so after such an initialisation the back buffer can be sized for a different mode than the current one. The model does not cover that case.
- NextMode: the effect of `SetMode` is not modelled. Its result is ignored in the source. The mode record after the call is an arbitrary caller-supplied `newMode`. `num_modes` is not re-read, exactly as in the source.
- `AllocatePool` and `FreePool` are not modelled. A new allocation is a caller-supplied sequence of the right length. Allocation failure and the freeing of the old buffer are out of scope.
- The cast of `FrameBufferBase` to a pixel pointer is not modelled. The framebuffer is a sequence parameter of the swap operations.
- `gop_get_addr` is not modelled. It returns the back buffer's address, and pointer identity has no counterpart in a value model.
- All diagnostic `Print` calls and the `uefi_call_wrapper` calling-convention plumbing are not modelled.
- ClearBackbuffer: requires `FrameBufferSize / 4 < 2^32`. The C loop counter is a `UINT32`, so beyond that bound it wraps and the loop never terminates. That non-termination is not modelled.
- SwapBuffers: requires `FrameBufferSize / 4 < 2^32`, for the same reason as `ClearBackbuffer`.
- SwapBuffersAt: requires every touched slot to lie inside both buffers. The source performs no check, and an out-of-range rectangle is an out-of-bounds memory access.
- The `UINTN` width of the mode cursor is not modelled. The cursor never exceeds the larger of the mode count and 2, so it cannot wrap.
