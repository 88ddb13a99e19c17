/**
 The display adapter of `src/dev/gop.c`: the current mode record, the mode
 count read at initialisation, the static mode cursor and the back buffer.
 Buffers are sequences of 32-bit pixel slots; each operation returns the
 new contents of the buffer it writes. The framebuffer is firmware memory
 and is passed to the swap operations rather than held here.
 */
module GopDisplay {
  import opened GopTypes
  import opened GopGeometry
  import opened GopRegion
  import opened GopCycle

  datatype Display = Display(
    mode: Mode,           // the firmware's current mode record
    numModes: nat,        // `num_modes`, read from `MaxMode`
    cursor: nat,          // the static `next_mode` of `gop_next_mode`
    backbuffer: seq<u32>) // the pool allocated for the back buffer

  /** The back buffer has exactly one slot per framebuffer slot, and the
      whole-buffer loops over those slots terminate. */
  predicate Valid(d: Display)
  {
    SlotCountFits(d.mode) && |d.backbuffer| == Slots(d.mode)
  }

  predicate AllZero(buf: seq<u32>)
  {
    forall i :: 0 <= i < |buf| ==> buf[i] == 0
  }

  /** `after` is `before` with its first `n` slots zeroed and nothing else
      written. */
  predicate ClearedFrom(after: seq<u32>, before: seq<u32>, n: nat)
  {
    && |after| == |before|
    && (forall i :: 0 <= i < n && i < |after| ==> after[i] == 0)
    && (forall i :: n <= i < |before| ==> after[i] == before[i])
  }

  /** Clearing a cleared buffer changes nothing. */
  lemma ClearIdempotent(a: seq<u32>, b: seq<u32>, c: seq<u32>, n: nat)
    requires ClearedFrom(b, a, n) && ClearedFrom(c, b, n)
    ensures c == b
  {
  }

  /** Clearing every slot of a buffer leaves it all zero, whatever it held. */
  lemma ClearedWholeIsZero(after: seq<u32>, before: seq<u32>)
    requires ClearedFrom(after, before, |before|)
    ensures AllZero(after)
  {
  }

  /** Zero-fills the first `FrameBufferSize / 4` slots of the back buffer
      and writes nothing else. */
  method ClearBackbuffer(d: Display) returns (r: Display)
    requires SlotCountFits(d.mode) && Slots(d.mode) <= |d.backbuffer|
    ensures r.mode == d.mode && r.numModes == d.numModes && r.cursor == d.cursor
    ensures ClearedFrom(r.backbuffer, d.backbuffer, Slots(d.mode))
  {
    var buf := d.backbuffer;
    var i: u32 := 0;
    while (i as int) < Slots(d.mode)
      invariant i as int <= Slots(d.mode)
      invariant |buf| == |d.backbuffer|
      invariant forall j :: 0 <= j < i as int ==> buf[j] == 0
      invariant forall j :: i as int <= j < |buf| ==> buf[j] == d.backbuffer[j]
    {
      buf := buf[i := 0];
      i := i + 1;
    }
    r := d.(backbuffer := buf);
  }

  /** Allocates the back buffer for `mode`, whose uninitialised contents
      are `pool`, zero-fills it and reads the mode count from `MaxMode`.
      The mode cursor is the static of `gop_next_mode`, which initialisation
      does not touch: `cursor` is its current value (`INITIAL_CURSOR` on the
      first initialisation of a boot) and is kept. */
  method Init(mode: Mode, pool: seq<u32>, cursor: nat) returns (d: Display)
    requires SlotCountFits(mode) && |pool| == Slots(mode)
    ensures Valid(d)
    ensures d.mode == mode && d.numModes == mode.maxMode as int
    ensures d.cursor == cursor
    ensures AllZero(d.backbuffer)
  {
    d := ClearBackbuffer(Display(mode, mode.maxMode as int, cursor, pool));
  }

  /** Copies the first `FrameBufferSize / 4` slots of the back buffer into
      the framebuffer `fb` and writes no other framebuffer slot. */
  method SwapBuffers(d: Display, fb: seq<u32>) returns (fb': seq<u32>)
    requires SlotCountFits(d.mode)
    requires Slots(d.mode) <= |d.backbuffer| && Slots(d.mode) <= |fb|
    ensures |fb'| == |fb|
    ensures forall i :: 0 <= i < Slots(d.mode) ==> fb'[i] == d.backbuffer[i]
    ensures forall i :: Slots(d.mode) <= i < |fb| ==> fb'[i] == fb[i]
  {
    fb' := fb;
    var i: u32 := 0;
    while (i as int) < Slots(d.mode)
      invariant i as int <= Slots(d.mode)
      invariant |fb'| == |fb|
      invariant forall j :: 0 <= j < i as int ==> fb'[j] == d.backbuffer[j]
      invariant forall j :: i as int <= j < |fb| ==> fb'[j] == fb[j]
    {
      fb' := fb'[i := d.backbuffer[i]];
      i := i + 1;
    }
  }

  /** Every pixel of the rectangle has its slot inside both buffers. */
  predicate RectInBuffers(d: Display, fb: seq<u32>, sx: u32, sy: u32, ex: u32, ey: u32)
  {
    forall x: u32, y: u32 :: InRect(x, y, sx as int, sy as int, ex as int, ey as int) ==>
      Index(d.mode, x, y) as int < |d.backbuffer| && Index(d.mode, x, y) as int < |fb|
  }

  /** A rectangle inside the visible area is inside both buffers when the
      scanline is at least the visible width and the framebuffer holds the
      padded buffer. */
  lemma VisibleRectInBuffers(d: Display, fb: seq<u32>, sx: u32, sy: u32, ex: u32, ey: u32)
    requires Valid(d) && GeometryFits(d.mode) && Width(d.mode) as int <= ScanLine(d.mode)
    requires Size(d.mode) as int / 4 <= Slots(d.mode) <= |fb|
    requires ex <= Width(d.mode) && ey <= Height(d.mode)
    ensures RectInBuffers(d, fb, sx, sy, ex, ey)
  {
    forall x: u32, y: u32 | InRect(x, y, sx as int, sy as int, ex as int, ey as int)
      ensures Index(d.mode, x, y) as int < Slots(d.mode)
    {
      VisibleIndexInBuffer(d.mode, x, y);
    }
  }

  /** Copies the pixels of `[sx, ex) x [sy, ey)` from the back buffer into
      the framebuffer, row by row. Exactly the slots of those pixels take
      the back buffer's value; every other framebuffer slot keeps its own. */
  method SwapBuffersAt(d: Display, fb: seq<u32>, sx: u32, sy: u32, ex: u32, ey: u32)
    returns (fb': seq<u32>)
    requires RectInBuffers(d, fb, sx, sy, ex, ey)
    ensures |fb'| == |fb|
    ensures forall x: u32, y: u32 :: InRect(x, y, sx as int, sy as int, ex as int, ey as int) ==>
              fb'[Index(d.mode, x, y)] == d.backbuffer[Index(d.mode, x, y)]
    ensures forall i :: 0 <= i < |fb| ==>
              fb'[i] == if Covered(d.mode, i, sx as int, sy as int, ex as int, ey as int)
                        then d.backbuffer[i] else fb[i]
    ensures sx >= ex || sy >= ey ==> fb' == fb
  {
    var m, bb := d.mode, d.backbuffer;
    ghost var x0, y0, x1, y1 := sx as int, sy as int, ex as int, ey as int;
    fb' := fb;
    var y := sy;
    while y < ey
      invariant y == sy || sy < y <= ey
      invariant |fb'| == |fb|
      invariant forall i :: 0 <= i < |fb| ==>
                  fb'[i] == if Covered(m, i, x0, y0, x1, y as int) then bb[i] else fb[i]
    {
      var x := sx;
      while x < ex
        invariant x == sx || sx < x <= ex
        invariant |fb'| == |fb|
        invariant forall i :: 0 <= i < |fb| ==>
                    fb'[i] == if Covered(m, i, x0, y0, x1, y as int) || CoveredInRow(m, i, x0, x as int, y as int)
                              then bb[i] else fb[i]
      {
        assert InRect(x, y, x0, y0, x1, y1);
        var pixel := bb[Index(m, x, y)];
        fb' := fb'[Index(m, x, y) := pixel];
        CoveredAddColumn(m, x0, x as int, y as int);
        x := x + 1;
      }
      CoveredAddRow(m, x0, y0, x1, y as int);
      y := y + 1;
    }
  }

  /** Requests the mode the cursor names (returned as `requested`; the
      firmware's answer is ignored), advances the cursor, wrapping it to 0
      once it reaches the mode count, and replaces the back buffer with a
      zero-filled one sized for `newMode`, the mode record the firmware
      reports afterwards. `pool` is the uninitialised new allocation. */
  method NextMode(d: Display, newMode: Mode, pool: seq<u32>) returns (r: Display, requested: nat)
    requires SlotCountFits(newMode) && |pool| == Slots(newMode)
    ensures requested == d.cursor
    ensures r.cursor == Advance(d.cursor, d.numModes)
    ensures d.numModes >= 1 ==> r.cursor < d.numModes
    ensures r.numModes == d.numModes && r.mode == newMode
    ensures Valid(r) && AllZero(r.backbuffer)
  {
    requested := d.cursor;
    var next := d.cursor + 1;
    if next >= d.numModes {
      next := 0;
    }
    r := ClearBackbuffer(Display(newMode, d.numModes, next, pool));
  }
}
