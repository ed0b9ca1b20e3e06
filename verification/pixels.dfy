/** Pixel, palette and frame records read and written by the frame compositor. */
module Pixels {

  /** An unsigned 8-bit quantity: a colour channel, an alpha value or a palette index. */
  type Byte = x: int | 0 <= x < 0x100

  datatype Option<+T> = None | Some(value: T)

  /** One colour-table entry. */
  datatype Rgb = Rgb(red: Byte, green: Byte, blue: Byte)

  /** One canvas pixel: a colour followed by an alpha byte (the `argb` record). */
  datatype Argb = Argb(rgb: Rgb, alpha: Byte)

  const Opaque: Byte := 0xFF

  /** The pixel a zero fill leaves behind: every byte 0, i.e. fully transparent black. */
  const ClearPixel: Argb := Argb(Rgb(0, 0, 0), 0)

  /** A colour table, indexed by the bytes of a frame's raster. */
  type ColorMap = seq<Rgb>

  /** Disposal methods 0..3 of the Graphic Control Extension (GIF89a, section 23). */
  datatype Disposal = Unspecified | DoNotDispose | Background | Previous

  /** One decoded frame: the Image Descriptor rectangle (GIF89a, section 20), the optional
      local colour table, the decoded raster (one palette index per pixel, row-major,
      `width * height` of them) and the Graphic Control Extension fields that are read:
      transparency index, disposal method and delay. */
  datatype Frame = Frame(
    left: nat, top: nat, width: nat, height: nat,
    colorMap: Option<ColorMap>,
    raster: seq<Byte>,
    transparent: Option<Byte>,
    disposal: Disposal,
    delay: nat)

  /** The logical screen (`SWidth` x `SHeight`) and the caller's buffer, whose rows lie
      `stride` pixels apart. */
  datatype Screen = Screen(width: nat, height: nat, stride: nat)

  /** Number of pixels of a canvas or backup buffer: `stride * SHeight`. */
  function BufferSize(screen: Screen): nat {
    screen.stride * screen.height
  }

  /** The raster holds exactly one index per pixel of the frame rectangle. */
  predicate RasterSized(f: Frame) {
    |f.raster| == f.width * f.height
  }
}
