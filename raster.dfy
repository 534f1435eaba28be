/** The in-memory bitmap an image record is decoded into: a grid of cells addressed
    (column, row) as FreeImage's SetPixelColor/SetPixelIndex address them, and the
    256-entry palette of an 8-bit bitmap. */
module Raster {
  import opened Bytes
  import opened Utilities

  /** A palette entry (FreeImage RGBQUAD without its reserved byte). */
  datatype Rgb = Rgb(r: Byte, g: Byte, b: Byte)

  /** One cell: a colour (16- and 24-bit bitmaps) or a palette index (8-bit bitmaps). */
  datatype Pixel = Color(c: Argb) | Index(i: Byte)

  class Bitmap {
    const width: nat
    const height: nat
    /** cells[y, x] is the cell in row y, column x. */
    const cells: array2<Pixel>
    const palette: array<Rgb>

    ghost predicate Valid()
      reads this
    {
      cells.Length0 == height && cells.Length1 == width
    }

    /** Allocate/AllocateEx: every cell holds the background value; the palette
        holds paletteSize black entries. */
    constructor (w: nat, h: nat, background: Pixel, paletteSize: nat)
      ensures Valid() && width == w && height == h
      ensures fresh(cells) && fresh(palette) && palette.Length == paletteSize
      ensures forall y, x :: 0 <= y < h && 0 <= x < w ==> cells[y, x] == background
      ensures forall i :: 0 <= i < paletteSize ==> palette[i] == Rgb(0, 0, 0)
    {
      width := w;
      height := h;
      cells := new Pixel[h, w]((_, _) => background);
      palette := new Rgb[paletteSize](_ => Rgb(0, 0, 0));
    }

    /** SetPixelColor/SetPixelIndex at column x, row y. */
    method SetPixel(x: nat, y: nat, p: Pixel)
      requires Valid() && x < width && y < height
      modifies cells
      ensures cells[y, x] == p
      ensures forall r, c :: 0 <= r < height && 0 <= c < width && (r, c) != (y, x) ==>
        cells[r, c] == old(cells[r, c])
    {
      cells[y, x] := p;
    }

    /** FlipHorizontal: every row is mirrored left to right. */
    method FlipHorizontal()
      requires Valid()
      modifies cells
      ensures forall y, x :: 0 <= y < height && 0 <= x < width ==>
        cells[y, x] == old(cells[y, width - 1 - x])
    {
      var y := 0;
      while y < height
        invariant 0 <= y <= height
        invariant forall r, c :: 0 <= r < y && 0 <= c < width ==> cells[r, c] == old(cells[r, width - 1 - c])
        invariant forall r, c :: y <= r < height && 0 <= c < width ==> cells[r, c] == old(cells[r, c])
      {
        MirrorRow(y);
        y := y + 1;
      }
    }

    /** Mirrors row y in place by swapping cells from both ends toward the middle. */
    method MirrorRow(y: nat)
      requires Valid() && y < height
      modifies cells
      ensures forall c :: 0 <= c < width ==> cells[y, c] == old(cells[y, width - 1 - c])
      ensures forall r, c :: 0 <= r < height && r != y && 0 <= c < width ==> cells[r, c] == old(cells[r, c])
    {
      var i := 0;
      while i < width / 2
        invariant 0 <= i <= width / 2
        invariant forall c :: 0 <= c < i ==>
          cells[y, c] == old(cells[y, width - 1 - c]) && cells[y, width - 1 - c] == old(cells[y, c])
        invariant forall c :: i <= c < width - i ==> cells[y, c] == old(cells[y, c])
        invariant forall r, c :: 0 <= r < height && r != y && 0 <= c < width ==> cells[r, c] == old(cells[r, c])
      {
        var t := cells[y, i];
        cells[y, i] := cells[y, width - 1 - i];
        cells[y, width - 1 - i] := t;
        i := i + 1;
      }
    }

    /** The cells as a sequence of rows. */
    function Rows(): (rows: seq<seq<Pixel>>)
      reads this, cells
      requires Valid()
      ensures |rows| == height
      ensures forall y :: 0 <= y < height ==> |rows[y]| == width
      ensures forall y, x :: 0 <= y < height && 0 <= x < width ==> rows[y][x] == cells[y, x]
    {
      seq(height, y requires 0 <= y < height reads cells =>
        seq(width, x requires 0 <= x < width reads cells => cells[y, x]))
    }
  }
}
