/** Addressing of a stride-organised pixel buffer and the 32-bit fill (MEMSET_ARGB). */
module Canvas {
  import opened Pixels
  import opened Arith

  /** GET_ADDR: the buffer index of pixel (x, y) when rows lie `stride` pixels apart. */
  function Addr(stride: nat, x: nat, y: nat): nat {
    y * stride + x
  }

  /** Buffer index `i` lies in the rectangle [left, left + w) x [top, top + h). */
  predicate InRect(stride: nat, i: nat, left: nat, top: nat, w: nat, h: nat) {
    stride > 0 && top <= i / stride < top + h && left <= i % stride < left + w
  }

  /** A column inside the stride is recovered from its address by `%`, the row by `/`. */
  lemma AddrCoordinates(stride: nat, x: nat, y: nat)
    requires x < stride
    ensures Addr(stride, x, y) / stride == y
    ensures Addr(stride, x, y) % stride == x
  {
    DivModUnique(Addr(stride, x, y), stride, y, x);
  }

  /** The `n` pixels written from GET_ADDR(x0, y) onwards are exactly the pixels of row `y`
      in columns [x0, x0 + n), provided the run stays inside the stride. */
  lemma RowSegment(stride: nat, x0: nat, n: nat, y: nat, i: nat)
    requires x0 + n <= stride
    ensures Addr(stride, x0, y) <= i < Addr(stride, x0, y) + n <==> InRect(stride, i, x0, y, n, 1)
    ensures Addr(stride, x0, y) <= i < Addr(stride, x0, y) + n ==>
              i / stride == y && i % stride == x0 + (i - Addr(stride, x0, y))
  {
    var base := Addr(stride, x0, y);
    if base <= i < base + n {
      AddrCoordinates(stride, x0 + (i - base), y);
      assert i == Addr(stride, x0 + (i - base), y);
    }
    if InRect(stride, i, x0, y, n, 1) {
      assert i == (i / stride) * stride + i % stride;
    }
  }

  /** A run of `n` pixels from GET_ADDR(x0, y) stays inside a `stride * height` buffer. */
  lemma RowInBuffer(stride: nat, height: nat, x0: nat, n: nat, y: nat)
    requires x0 + n <= stride && y < height
    ensures Addr(stride, x0, y) + n <= stride * height
  {
    MulMono(y + 1, height, stride);
  }

  /** Row-major index (row, col) of a w x h raster is in range. */
  lemma RasterIndexBound(w: nat, h: nat, col: nat, row: nat)
    requires col < w && row < h
    ensures row * w + col < w * h
  {
    MulMono(row + 1, h, w);
  }

  /** MEMSET_ARGB(dst, v, n) as a per-pixel 32-bit fill: pixels [start, start + n) become `v`,
      every other pixel keeps its value. */
  method FillRange(c: seq<Argb>, start: nat, n: nat, v: Argb) returns (r: seq<Argb>)
    requires start + n <= |c|
    ensures |r| == |c|
    ensures forall i :: 0 <= i < |c| ==> r[i] == if start <= i < start + n then v else c[i]
  {
    r := c;
    var k := 0;
    while k < n
      invariant k <= n && |r| == |c|
      invariant forall i :: 0 <= i < |c| ==> r[i] == if start <= i < start + k then v else c[i]
    {
      r := r[start + k := v];
      k := k + 1;
    }
  }
}
