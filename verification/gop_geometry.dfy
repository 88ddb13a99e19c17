/**
 Pixel-buffer geometry of `src/dev/gop.c`: width, height, pitch, size and the
 row-major slot index whose stride is the scanline, not the visible width.
 All of it is `UINT32` arithmetic and is modelled with explicit wrap-around.
 */
module GopGeometry {
  import opened GopTypes
  import opened GopArith

  function Width(m: Mode): (w: u32)
  {
    m.info.horizontalResolution
  }

  function Height(m: Mode): (h: u32)
  {
    m.info.verticalResolution
  }

  /** Pixel slots per scanline, as the firmware reports them. */
  function ScanLine(m: Mode): (w: nat)
  {
    m.info.pixelsPerScanLine as int
  }

  /** The scanline stride fits when `4 * PixelsPerScanLine` does not wrap. */
  predicate PitchFits(m: Mode)
  {
    4 * ScanLine(m) < U32_MODULUS
  }

  /** The whole scanline-padded buffer, in bytes, fits in a `UINT32`. */
  predicate GeometryFits(m: Mode)
  {
    4 * ScanLine(m) * Height(m) as int < U32_MODULUS
  }

  /** Byte stride between scanlines: four bytes per slot of the scanline. */
  function Pitch(m: Mode): (p: u32)
    ensures p as int % 4 == 0
    ensures PitchFits(m) ==> p as int == 4 * ScanLine(m)
    ensures PitchFits(m) ==> p as int / 4 == ScanLine(m)
  {
    Wrap(4 * ScanLine(m))
  }

  /** Byte size of the scanline-padded buffer: pitch times height. */
  function Size(m: Mode): (s: u32)
    ensures s as int % 4 == 0
    ensures GeometryFits(m) ==> s as int == 4 * ScanLine(m) * Height(m) as int
    ensures GeometryFits(m) ==> s as int / 4 == ScanLine(m) * Height(m) as int
  {
    var bytes := Pitch(m) as int * Height(m) as int;
    WrapKeepsMultipleOfFour(Pitch(m) as int / 4 * Height(m) as int);
    assert bytes == 4 * (Pitch(m) as int / 4 * Height(m) as int);
    FitsBoundsScanLine(m);
    Wrap(bytes)
  }

  /** Truncation to `UINT32` keeps a multiple of four a multiple of four,
      because 2^32 is one. */
  lemma WrapKeepsMultipleOfFour(k: nat)
    ensures Wrap(4 * k) as int % 4 == 0
  {
    var q := 4 * k / U32_MODULUS;
    assert 4 * k == q * U32_MODULUS + Wrap(4 * k) as int;
    assert Wrap(4 * k) as int == 4 * (k - q * (U32_MODULUS / 4));
  }

  /** A buffer that fits with at least one row has a pitch that fits. */
  lemma FitsBoundsScanLine(m: Mode)
    ensures GeometryFits(m) && Height(m) > 0 ==> PitchFits(m)
  {
    if GeometryFits(m) && Height(m) > 0 {
      assert 4 * ScanLine(m) <= 4 * ScanLine(m) * Height(m) as int;
    }
  }

  /** No `UINT32` wrap-around happens in computing the index of (x, y). */
  predicate IndexFits(m: Mode, x: u32, y: u32)
  {
    PitchFits(m) && x as int + y as int * ScanLine(m) < U32_MODULUS
  }

  /** Linear slot index of pixel (x, y): column plus row times the slots
      per scanline, in `UINT32`. */
  function Index(m: Mode, x: u32, y: u32): (i: u32)
    ensures IndexFits(m, x, y) ==> i as int == x as int + y as int * ScanLine(m)
  {
    Wrap(x as int + y as int * (Pitch(m) as int / 4))
  }

  /** Column of slot `i`: the inverse of `Index` on its first coordinate. */
  function Column(m: Mode, i: nat): (x: nat)
    requires ScanLine(m) > 0
  {
    i % ScanLine(m)
  }

  /** Row of slot `i`: the inverse of `Index` on its second coordinate. */
  function Row(m: Mode, i: nat): (y: nat)
    requires ScanLine(m) > 0
  {
    i / ScanLine(m)
  }

  /** A pixel inside the scanline-padded buffer lands on a slot inside it:
      the index is below `PixelsPerScanLine * VerticalResolution`, which is
      the slot count of `Size`. */
  lemma IndexInBuffer(m: Mode, x: u32, y: u32)
    requires GeometryFits(m)
    requires x as int < ScanLine(m) && y < Height(m)
    ensures IndexFits(m, x, y)
    ensures Index(m, x, y) as int < ScanLine(m) * Height(m) as int
    ensures Index(m, x, y) as int < Size(m) as int / 4
  {
    FitsBoundsScanLine(m);
    var w, h := ScanLine(m), Height(m) as int;
    assert x as int + y as int * w < w + y as int * w == (y as int + 1) * w;
    assert (y as int + 1) * w <= h * w;
  }

  /** The visible area (`Width` by `Height`) lies inside the buffer whenever
      the scanline is at least as wide as the visible row. */
  lemma VisibleIndexInBuffer(m: Mode, x: u32, y: u32)
    requires GeometryFits(m) && Width(m) as int <= ScanLine(m)
    requires x < Width(m) && y < Height(m)
    ensures Index(m, x, y) as int < Size(m) as int / 4
  {
    IndexInBuffer(m, x, y);
  }

  /** `Column` and `Row` undo `Index` for every pixel of the padded buffer. */
  lemma PixelOfIndex(m: Mode, x: u32, y: u32)
    requires IndexFits(m, x, y) && x as int < ScanLine(m)
    ensures Column(m, Index(m, x, y) as int) == x as int
    ensures Row(m, Index(m, x, y) as int) == y as int
  {
    var w := ScanLine(m);
    var i := Index(m, x, y) as int;
    assert i == x as int + y as int * w;
    DivModUnique(i, w, y as int, x as int);
  }

  /** `Index` undoes `Column` and `Row` for every slot of the padded buffer. */
  lemma IndexOfPixel(m: Mode, i: nat)
    requires GeometryFits(m) && i < ScanLine(m) * Height(m) as int
    ensures ScanLine(m) > 0
    ensures Column(m, i) < U32_MODULUS && Row(m, i) < U32_MODULUS
    ensures Index(m, Column(m, i) as u32, Row(m, i) as u32) as int == i
  {
    var w, h := ScanLine(m), Height(m) as int;
    FitsBoundsScanLine(m);
    var x, y := i % w, i / w;
    DivBelow(i, w, h);
    IndexInBuffer(m, x as u32, y as u32);
  }

  /** Distinct pixels of the padded buffer have distinct slots. */
  lemma IndexInjective(m: Mode, x1: u32, y1: u32, x2: u32, y2: u32)
    requires GeometryFits(m)
    requires x1 as int < ScanLine(m) && y1 < Height(m)
    requires x2 as int < ScanLine(m) && y2 < Height(m)
    ensures Index(m, x1, y1) == Index(m, x2, y2) <==> x1 == x2 && y1 == y2
  {
    IndexInBuffer(m, x1, y1);
    IndexInBuffer(m, x2, y2);
    if Index(m, x1, y1) == Index(m, x2, y2) {
      PixelOfIndex(m, x1, y1);
      PixelOfIndex(m, x2, y2);
    }
  }
}
