/**
 The data the display driver works with: 32-bit unsigned values, as the C
 code's `UINT32`, and the part of the firmware's graphics-output mode record
 that the driver reads (section 12.9 of the UEFI Specification,
 `EFI_GRAPHICS_OUTPUT_PROTOCOL_MODE` and `EFI_GRAPHICS_OUTPUT_MODE_INFORMATION`).
 */
module GopTypes {

  /** 2^32, the modulus of C `UINT32` arithmetic. */
  const U32_MODULUS: int := 0x1_0000_0000

  /** A C `UINT32`: pixels, coordinates, pitch, size and index. */
  newtype u32 = x: int | 0 <= x < 0x1_0000_0000

  /** Truncation of an unsigned result to `UINT32`, which is what C does
      with every `+` and `*` on unsigned 32-bit operands. */
  function Wrap(x: nat): (r: u32)
    ensures x < U32_MODULUS ==> r as int == x
    ensures (x - r as int) % U32_MODULUS == 0
  {
    (x % U32_MODULUS) as u32
  }

  /** Geometry of the current mode, as the firmware reports it. */
  datatype ModeInfo = ModeInfo(
    horizontalResolution: u32,
    verticalResolution: u32,
    pixelsPerScanLine: u32)

  /** The mode record: number of modes, geometry of the current mode and the
      byte size of the framebuffer (a `UINTN`). The framebuffer base address
      is not modelled: the framebuffer's contents are passed around instead. */
  datatype Mode = Mode(maxMode: u32, info: ModeInfo, frameBufferSize: nat)

  /** Number of whole 32-bit pixel slots in a buffer of `frameBufferSize`
      bytes: the bound of the driver's whole-buffer loops. */
  function Slots(m: Mode): (n: nat)
  {
    m.frameBufferSize / 4
  }

  /** The whole-buffer loops count with a `UINT32`; they terminate only
      when the slot count stays below 2^32 (otherwise the counter wraps
      before reaching it). */
  predicate SlotCountFits(m: Mode)
  {
    Slots(m) < U32_MODULUS
  }
}
