/** The indexed-to-ARGB blitter (blitNormal) and palette resolution (drawFrame). */
module Blit {
  import opened Pixels
  import opened Canvas
  import opened Arith
  import opened Palette

  /** The frame's rectangle contains screen pixel (x, y). */
  predicate InFrame(f: Frame, x: nat, y: nat) {
    f.left <= x < f.left + f.width && f.top <= y < f.top + f.height
  }

  /** The frame's rectangle lies inside the rows and the stride of the buffer. */
  predicate FitsBuffer(screen: Screen, f: Frame) {
    f.left + f.width <= screen.stride && f.top + f.height <= screen.height
  }

  /** The raster byte the frame holds for screen pixel (x, y). */
  function Pixel(f: Frame, x: nat, y: nat): Byte
    requires RasterSized(f) && InFrame(f, x, y)
  {
    RasterIndexBound(f.width, f.height, x - f.left, y - f.top);
    f.raster[(y - f.top) * f.width + (x - f.left)]
  }

  /** Every raster byte that gets drawn (any byte but the transparency index) names an entry
      of `cmap`. */
  ghost predicate Resolvable(f: Frame, cmap: ColorMap)
    requires RasterSized(f)
  {
    forall x: nat, y: nat :: InFrame(f, x, y) ==> f.transparent == Some(Pixel(f, x, y)) || Pixel(f, x, y) < |cmap|
  }

  /** The effect of one raster byte on the pixel under it. */
  function Painted(under: Argb, index: Byte, transparent: Option<Byte>, cmap: ColorMap): Argb
    requires transparent == Some(index) || index < |cmap|
  {
    if transparent == Some(index) then under else Argb(cmap[index], Opaque)
  }

  /** Reference definition of a blit, pixel by pixel of the buffer. */
  function Blitted(canvas: seq<Argb>, stride: nat, f: Frame, cmap: ColorMap): (r: seq<Argb>)
    requires RasterSized(f) && Resolvable(f, cmap)
    ensures |r| == |canvas|
  {
    seq(|canvas|, i requires 0 <= i < |canvas| =>
      if InRect(stride, i, f.left, f.top, f.width, f.height)
      then Painted(canvas[i], Pixel(f, i % stride, i / stride), f.transparent, cmap)
      else canvas[i])
  }

  /** One row of blitNormal: the pixels from `base` on take the row's raster bytes. */
  method PaintRow(c: seq<Argb>, base: nat, row: seq<Byte>, transparent: Option<Byte>, cmap: ColorMap)
    returns (r: seq<Argb>)
    requires base + |row| <= |c|
    requires forall j :: 0 <= j < |row| ==> transparent == Some(row[j]) || row[j] < |cmap|
    ensures |r| == |c|
    ensures forall i :: 0 <= i < |c| ==>
              r[i] == if base <= i < base + |row| then Painted(c[i], row[i - base], transparent, cmap) else c[i]
  {
    r := c;
    var x := 0;
    while x < |row|
      invariant x <= |row| && |r| == |c|
      invariant forall i :: 0 <= i < |c| ==>
                  r[i] == if base <= i < base + x then Painted(c[i], row[i - base], transparent, cmap) else c[i]
    {
      if transparent.None? {
        // MEMSET_ARGB to all-ones, then the colour: alpha ends up 0xFF
        r := r[base + x := Argb(cmap[row[x]], Opaque)];
      } else if row[x] != transparent.value {
        r := r[base + x := Argb(cmap[row[x]], Opaque)];
      }
      x := x + 1;
    }
  }

  /** blitNormal: draws the frame row by row at GET_ADDR(Left, Top + y), advancing by the
      stride between rows. */
  method BlitNormal(canvas: seq<Argb>, screen: Screen, f: Frame, cmap: ColorMap) returns (r: seq<Argb>)
    requires |canvas| == BufferSize(screen) && FitsBuffer(screen, f)
    requires RasterSized(f) && Resolvable(f, cmap)
    ensures r == Blitted(canvas, screen.stride, f, cmap)
  {
    var stride := screen.stride;
    ghost var want := Blitted(canvas, stride, f, cmap);
    r := canvas;
    var y := 0;
    while y < f.height
      invariant y <= f.height && |r| == |canvas|
      invariant forall i :: 0 <= i < |canvas| ==>
                  r[i] == if InRect(stride, i, f.left, f.top, f.width, y) then want[i] else canvas[i]
    {
      var base := Addr(stride, f.left, f.top + y);
      RowInBuffer(stride, screen.height, f.left, f.width, f.top + y);
      MulMono(y + 1, f.height, f.width);
      var row := f.raster[y * f.width .. y * f.width + f.width];
      forall j | 0 <= j < |row|
        ensures f.transparent == Some(row[j]) || row[j] < |cmap|
      {
        assert row[j] == Pixel(f, f.left + j, f.top + y);
      }
      var next := PaintRow(r, base, row, f.transparent, cmap);
      forall i | 0 <= i < |canvas|
        ensures next[i] == if InRect(stride, i, f.left, f.top, f.width, y + 1) then want[i] else canvas[i]
      {
        RowSegment(stride, f.left, f.width, f.top + y, i);
      }
      r := next;
      y := y + 1;
    }
  }

  /** drawFrame: blits the frame with the table ChoosePalette picks. */
  function DrawFrame(canvas: seq<Argb>, stride: nat, f: Frame, globalMap: Option<ColorMap>, defaultMap: ColorMap): (r: seq<Argb>)
    requires RasterSized(f) && Resolvable(f, ChoosePalette(f.colorMap, globalMap, defaultMap))
    ensures |r| == |canvas|
    // a drawn pixel takes its colour from the local table, else the global one, else the default
    ensures forall i :: 0 <= i < |canvas| && InRect(stride, i, f.left, f.top, f.width, f.height) &&
                        f.transparent != Some(Pixel(f, i % stride, i / stride)) ==>
              r[i].alpha == Opaque &&
              r[i].rgb == (if f.colorMap.Some? then f.colorMap.value
                           else if globalMap.Some? then globalMap.value
                           else defaultMap)[Pixel(f, i % stride, i / stride)]
    // a transparent pixel and any pixel outside the frame keeps its value
    ensures forall i :: 0 <= i < |canvas| ==>
              (InRect(stride, i, f.left, f.top, f.width, f.height) &&
               f.transparent != Some(Pixel(f, i % stride, i / stride))) || r[i] == canvas[i]
  {
    Blitted(canvas, stride, f, ChoosePalette(f.colorMap, globalMap, defaultMap))
  }

  /** Inside the frame rectangle: a pixel whose raster byte is the transparency index keeps
      its prior value; any other takes its palette colour with alpha 0xFF. */
  lemma BlitInside(canvas: seq<Argb>, screen: Screen, f: Frame, cmap: ColorMap)
    requires |canvas| == BufferSize(screen) && FitsBuffer(screen, f)
    requires RasterSized(f) && Resolvable(f, cmap)
    ensures forall x: nat, y: nat :: InFrame(f, x, y) ==>
              Addr(screen.stride, x, y) < |canvas| &&
              Blitted(canvas, screen.stride, f, cmap)[Addr(screen.stride, x, y)] ==
                if f.transparent == Some(Pixel(f, x, y)) then canvas[Addr(screen.stride, x, y)]
                else Argb(cmap[Pixel(f, x, y)], Opaque)
  {
    forall x: nat, y: nat | InFrame(f, x, y)
      ensures Addr(screen.stride, x, y) < |canvas|
      ensures Blitted(canvas, screen.stride, f, cmap)[Addr(screen.stride, x, y)] ==
                if f.transparent == Some(Pixel(f, x, y)) then canvas[Addr(screen.stride, x, y)]
                else Argb(cmap[Pixel(f, x, y)], Opaque)
    {
      RowInBuffer(screen.stride, screen.height, x, 1, y);
      AddrCoordinates(screen.stride, x, y);
    }
  }

  /** Outside the frame rectangle, stride padding included, no pixel changes. */
  lemma BlitOutside(canvas: seq<Argb>, screen: Screen, f: Frame, cmap: ColorMap)
    requires |canvas| == BufferSize(screen)
    requires RasterSized(f) && Resolvable(f, cmap)
    ensures forall x: nat, y: nat :: x < screen.stride && y < screen.height && !InFrame(f, x, y) ==>
              Addr(screen.stride, x, y) < |canvas| &&
              Blitted(canvas, screen.stride, f, cmap)[Addr(screen.stride, x, y)] == canvas[Addr(screen.stride, x, y)]
  {
    forall x: nat, y: nat | x < screen.stride && y < screen.height && !InFrame(f, x, y)
      ensures Addr(screen.stride, x, y) < |canvas|
      ensures Blitted(canvas, screen.stride, f, cmap)[Addr(screen.stride, x, y)] == canvas[Addr(screen.stride, x, y)]
    {
      RowInBuffer(screen.stride, screen.height, x, 1, y);
      AddrCoordinates(screen.stride, x, y);
    }
  }

  /** With neither a local nor a global table, every drawn pixel of raster byte v is the
      grey (v, v, v), fully opaque. */
  lemma DefaultRampLookup(canvas: seq<Argb>, screen: Screen, f: Frame, defaultMap: ColorMap)
    requires |canvas| == BufferSize(screen) && FitsBuffer(screen, f) && RasterSized(f)
    requires f.colorMap.None? && IsGreyRamp(defaultMap)
    ensures forall x: nat, y: nat :: InFrame(f, x, y) && f.transparent != Some(Pixel(f, x, y)) ==>
              Addr(screen.stride, x, y) < |canvas| &&
              DrawFrame(canvas, screen.stride, f, None, defaultMap)[Addr(screen.stride, x, y)]
                == Argb(Rgb(Pixel(f, x, y), Pixel(f, x, y), Pixel(f, x, y)), Opaque)
  {
    BlitInside(canvas, screen, f, defaultMap);
  }
}
