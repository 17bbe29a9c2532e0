/** Pixel grids. A PIL image (mode "L", one integer per pixel) and a canvas
    `ImageData` (four bytes per pixel, flat, row-major) are both a `Grid`:
    `rows[y][x]` is the pixel `getpixel((x, y))` returns, or the four bytes at
    offset `(y*width + x)*4` of `ImageData.data`. */
module Images {

  type Byte = x: int | 0 <= x < 256

  datatype Rgba = Rgba(r: Byte, g: Byte, b: Byte, a: Byte)

  datatype Grid<P> = Grid(width: nat, height: nat, rows: seq<seq<P>>)

  /** Every row has `width` pixels and there are `height` rows. */
  predicate Valid<P>(g: Grid<P>) {
    |g.rows| == g.height && forall y :: 0 <= y < |g.rows| ==> |g.rows[y]| == g.width
  }
}
