/** The picture ("TCIP") record decoder: the 40-byte content header, the width
    correction, the 8-bit palette, the mirrored pixel walk and the final flip. */
module Picture {
  import opened Bytes
  import opened Stream
  import opened Utilities
  import opened WidthQuirk
  import opened Raster

  const HEADER_SIZE: nat := 40
  const PALETTE_ENTRIES: nat := 256

  /** The 40-byte content header; the two zero gaps are not kept. */
  datatype ContentHeader = ContentHeader(
    headerLength: int,
    width: int,
    height: int,
    frameCount: int,
    depth: int,
    imageDataLength: int,
    mystery1: int,
    mystery2: int,
    endDataHeader: int)

  /** What a picture record decodes to: the stride, the width-hack flag, the pixel rows
      after the flip and the palette (256 entries at 8 bits per pixel, empty otherwise). */
  datatype DecodedImage = DecodedImage(
    stride: nat,
    widthHackApplied: bool,
    pixels: seq<seq<Pixel>>,
    palette: seq<Rgb>)

  /** A picture record: its header, the derived paletteSizeFor8BitImages field, and the
      image, which is absent when the depth is not 8, 16 or 24. */
  datatype PictureRecord = PictureRecord(header: ContentHeader, paletteSize: int, image: Option<DecodedImage>)

  predicate HeaderInRange(h: ContentHeader)
  {
    && IsInt32(h.headerLength) && IsInt32(h.width) && IsInt32(h.height)
    && IsInt16(h.frameCount) && IsInt16(h.depth)
    && IsInt32(h.imageDataLength) && IsInt32(h.mystery1) && IsInt32(h.mystery2)
    && IsInt32(h.endDataHeader)
  }

  /** The content header at position p: eight Int32 and two Int16 fields, with the
      Int32 gaps at offsets 16 and 32 skipped. */
  function ParseContentHeader(data: seq<Byte>, p: nat): (h: ContentHeader)
    requires p + HEADER_SIZE <= |data|
    ensures HeaderInRange(h)
  {
    ContentHeader(
      Int32At(data, p), Int32At(data, p + 4), Int32At(data, p + 8),
      Int16At(data, p + 12), Int16At(data, p + 14),
      Int32At(data, p + 20), Int32At(data, p + 24), Int32At(data, p + 28),
      Int32At(data, p + 36))
  }

  /** The bytes of a content header, with zero gaps. */
  function EncodeContentHeader(h: ContentHeader): (s: seq<Byte>)
    ensures |s| == HEADER_SIZE
  {
    EncodeInt32(h.headerLength) + EncodeInt32(h.width) + EncodeInt32(h.height)
    + EncodeInt16(h.frameCount) + EncodeInt16(h.depth) + EncodeInt32(0)
    + EncodeInt32(h.imageDataLength) + EncodeInt32(h.mystery1) + EncodeInt32(h.mystery2)
    + EncodeInt32(0) + EncodeInt32(h.endDataHeader)
  }

  /** Parsing an encoded header gives the header back. */
  lemma ContentHeaderRoundTrip(h: ContentHeader)
    requires HeaderInRange(h)
    ensures ParseContentHeader(EncodeContentHeader(h), 0) == h
  {
    var s := EncodeContentHeader(h);
    assert s[0..4] == EncodeInt32(h.headerLength);
    assert s[4..8] == EncodeInt32(h.width);
    assert s[8..12] == EncodeInt32(h.height);
    assert s[12..14] == EncodeInt16(h.frameCount);
    assert s[14..16] == EncodeInt16(h.depth);
    assert s[20..24] == EncodeInt32(h.imageDataLength);
    assert s[24..28] == EncodeInt32(h.mystery1);
    assert s[28..32] == EncodeInt32(h.mystery2);
    assert s[36..40] == EncodeInt32(h.endDataHeader);
    Int32RoundTrip(h.headerLength);
    Int32RoundTrip(h.width);
    Int32RoundTrip(h.height);
    Int16RoundTrip(h.frameCount);
    Int16RoundTrip(h.depth);
    Int32RoundTrip(h.imageDataLength);
    Int32RoundTrip(h.mystery1);
    Int32RoundTrip(h.mystery2);
    Int32RoundTrip(h.endDataHeader);
  }

  /** paletteSizeFor8BitImages: dataSize less the header length less the image data
      length, in wrapping Int32 arithmetic. The decoder stores it and never uses it. */
  function PaletteSizeFor8Bit(dataSize: int, h: ContentHeader): (r: int)
    ensures IsInt32(r)
    ensures (dataSize - h.headerLength - h.imageDataLength - r) % TWO_32 == 0
    ensures IsInt32(dataSize - h.headerLength) && IsInt32(dataSize - h.headerLength - h.imageDataLength) ==>
      r == dataSize - h.headerLength - h.imageDataLength
  {
    var difference := Wrap32(dataSize - h.headerLength);
    var r := Wrap32(difference - h.imageDataLength);
    CongruentTrans(dataSize - h.headerLength - h.imageDataLength, difference - h.imageDataLength, r, TWO_32);
    r
  }

  /** The depths for which the decoder allocates a bitmap and reads pixels. */
  predicate SupportedDepth(depth: int)
  {
    depth == 8 || depth == 16 || depth == 24
  }

  function BytesPerPixel(depth: int): nat
  {
    if depth == 16 then 2 else if depth == 24 then 3 else if depth == 8 then 1 else 0
  }

  /** The number of stream bytes that count pixels occupy at the given depth. */
  function PixelBytes(depth: int, count: nat): nat
  {
    BytesPerPixel(depth) * count
  }

  /** The palette bytes a record carries before its pixels. */
  function PaletteBytes(depth: int): nat
  {
    if depth == 8 then 4 * PALETTE_ENTRIES else 0
  }

  /** A 16-bit pixel from its stream bytes c0, c1: the little-endian word c1 c0 read as
      A RRRRR GGGGG BBBBB, except that FF FF becomes opaque white and FF 7F becomes
      white with alpha 127. */
  function Pixel16(c0: Byte, c1: Byte): (p: Argb)
    ensures c0 == 0xFF && c1 == 0xFF ==> p == Argb(255, 255, 255, 255)
    ensures c0 == 0xFF && c1 == 0x7F ==> p == Argb(127, 255, 255, 255)
    ensures !(c0 == 0xFF && (c1 == 0xFF || c1 == 0x7F)) ==>
      var v := LeValue([c0, c1]);
      p == Argb(v / 0x8000 * 255, v / 0x400 % 32 * 8, v / 0x20 % 32 * 8, v % 32 * 8)
  {
    assert LeValue([c0, c1]) == c1 * 256 + c0 by {
      assert [c0, c1][1..] == [c1];
      assert [c1][1..] == [];
    }
    ColorFromWord(c1, c0);
    var decoded := GetColorFrom2Bytes(c1, c0);
    if c1 == 255 && c0 == 255 then Argb(255, 255, 255, 255)
    else if c1 == 127 && c0 == 255 then Argb(127, 255, 255, 255)
    else decoded
  }

  /** The two overridden words decode to something else without the override:
      FF FF to opaque light grey, FF 7F to transparent light grey. */
  lemma OverridesChangeTheColour()
    ensures GetColorFrom2Bytes(0xFF, 0xFF) == Argb(255, 248, 248, 248)
    ensures GetColorFrom2Bytes(0x7F, 0xFF) == Argb(0, 248, 248, 248)
  {
    ColorFromWord(0xFF, 0xFF);
    ColorFromWord(0x7F, 0xFF);
  }

  /** A 24-bit pixel from its stream bytes: blue, green, red; alpha is opaque. */
  function Pixel24(b0: Byte, b1: Byte, b2: Byte): Argb
  {
    Argb(255, b2, b1, b0)
  }

  /** Pixel k of the stream whose pixels start at position start (a black index
      past the end of the stream, where the decoder never looks). */
  function PixelAt(data: seq<Byte>, start: nat, depth: int, k: nat): Pixel
    requires SupportedDepth(depth)
  {
    var p := start + PixelBytes(depth, k);
    if p + BytesPerPixel(depth) > |data| then Index(0)
    else if depth == 16 then Color(Pixel16(data[p], data[p + 1]))
    else if depth == 24 then Color(Pixel24(data[p], data[p + 1], data[p + 2]))
    else Index(data[p])
  }

  /** Palette entry i: its four bytes hold blue, green, red and an unused byte, and the
      decoder swaps the first and third, so red is byte 4i+2 and blue byte 4i. */
  function PaletteAt(data: seq<Byte>, start: nat, i: nat): Rgb
    requires start + 4 * i + 4 <= |data|
  {
    Rgb(data[start + 4 * i + 2], data[start + 4 * i + 1], data[start + 4 * i])
  }

  function Palette(data: seq<Byte>, start: nat, depth: int): (palette: seq<Rgb>)
    requires start + PaletteBytes(depth) <= |data|
    ensures |palette| * 4 == PaletteBytes(depth)
  {
    if depth == 8 then seq(PALETTE_ENTRIES, i requires 0 <= i < PALETTE_ENTRIES => PaletteAt(data, start, i))
    else []
  }

  /** A palette stored as blue, green, red and a spare byte per entry decodes to its
      colours: the decoder's swap of the first and third byte undoes the stored order. */
  lemma PaletteLayout(data: seq<Byte>, start: nat, colours: seq<Rgb>)
    requires |colours| == PALETTE_ENTRIES && start + PaletteBytes(8) <= |data|
    requires forall i :: 0 <= i < PALETTE_ENTRIES ==>
      data[start + 4 * i] == colours[i].b && data[start + 4 * i + 1] == colours[i].g
      && data[start + 4 * i + 2] == colours[i].r
    ensures Palette(data, start, 8) == colours
  {
    var p := Palette(data, start, 8);
    forall i | 0 <= i < PALETTE_ENTRIES
      ensures p[i] == colours[i]
    {
    }
  }

  /** The stream index of cell (y, x) of a stride-wide grid, row by row. */
  function GridIndex(stride: nat, y: nat, x: nat): nat
  {
    y * stride + x
  }

  /** The pixels laid out row by row, stride cells per row. */
  function Grid(data: seq<Byte>, start: nat, depth: int, stride: nat, height: nat): (g: seq<seq<Pixel>>)
    requires SupportedDepth(depth)
    ensures |g| == height && forall y :: 0 <= y < height ==> |g[y]| == stride
    ensures forall y, x :: 0 <= y < height && 0 <= x < stride ==>
      g[y][x] == PixelAt(data, start, depth, GridIndex(stride, y, x))
  {
    seq(height, y requires 0 <= y < height =>
      seq(stride, x requires 0 <= x < stride =>
        PixelAt(data, start, depth, GridIndex(stride, y, x))))
  }

  /** The palette and pixels of a record at a supported depth, starting at position
      start, and the position after them. */
  function ImageSpec(data: seq<Byte>, start: nat, depth: int, stride: nat, height: nat, widthHackApplied: bool)
    : (r: Result<(DecodedImage, nat)>)
    requires SupportedDepth(depth) && start <= |data|
    ensures r.Ok? ==> start <= r.value.1 <= |data|
  {
    var pixelStart := start + PaletteBytes(depth);
    var end := pixelStart + PixelBytes(depth, stride * height);
    if end > |data| then Err(EndOfStream)
    else
      var image := DecodedImage(stride, widthHackApplied,
        Grid(data, pixelStart, depth, stride, height), Palette(data, start, depth));
      Ok((image, end))
  }

  /** The picture record at position pos of the stream, and the position after it. */
  function PictureSpec(data: seq<Byte>, pos: nat, dataSize: int): (r: Result<(PictureRecord, nat)>)
    requires pos <= |data|
    ensures r.Ok? ==> pos <= r.value.1 <= |data|
  {
    if pos + HEADER_SIZE > |data| then Err(EndOfStream)
    else PictureBodySpec(data, pos + HEADER_SIZE, ParseContentHeader(data, pos), dataSize)
  }

  /** What follows a content header h that ends at position start. */
  function PictureBodySpec(data: seq<Byte>, start: nat, h: ContentHeader, dataSize: int): (r: Result<(PictureRecord, nat)>)
    requires start <= |data|
    ensures r.Ok? ==> start <= r.value.1 <= |data|
  {
    var paletteSize := PaletteSizeFor8Bit(dataSize, h);
    if h.width < 0 || h.height < 0 then Err(OutsideModel)
    else if !PaddingTerminates(h.width, h.depth) then Err(NeverTerminates)
    else if !SupportedDepth(h.depth) then Ok((PictureRecord(h, paletteSize, None), start))
    else
      var stride := EffectiveWidth(h.width, h.depth);
      if stride * h.height >= TWO_32 then Err(OutsideModel)
      else
        match ImageSpec(data, start, h.depth, stride, h.height, WidthHackApplies(h.width, h.depth))
        case Err(e) => Err(e)
        case Ok((image, end)) => Ok((PictureRecord(h, paletteSize, Some(image)), end))
  }

  /** The palette and the pixels occupy their bytes exactly: 1024 palette bytes at
      depth 8, then BytesPerPixel bytes for every cell of the stride-wide grid. */
  lemma ImageBytesConsumed(data: seq<Byte>, start: nat, depth: int, stride: nat, height: nat, hack: bool)
    requires SupportedDepth(depth) && start <= |data|
    ensures var r := ImageSpec(data, start, depth, stride, height, hack);
      && (r.Ok? <==> start + PaletteBytes(depth) + BytesPerPixel(depth) * (stride * height) <= |data|)
      && (r.Ok? ==>
            && r.value.1 == start + PaletteBytes(depth) + BytesPerPixel(depth) * (stride * height)
            && |r.value.0.palette| == (if depth == 8 then PALETTE_ENTRIES else 0)
            && |r.value.0.pixels| == height)
  {
    var total := stride * height;
    assert PixelBytes(depth, total) == BytesPerPixel(depth) * total;
  }

  /** The bytes a picture record consumes: the header, then for a supported depth the
      palette and every pixel of the stride-wide grid, nothing more for any other depth.
      It fails at the end of the stream inside the header, the palette or the pixels;
      with NeverTerminates for an odd width at a depth other than 8 or 16; and outside
      the model for negative dimensions or a pixel count that wraps around 2^32. */
  lemma PictureBytesConsumed(data: seq<Byte>, pos: nat, dataSize: int)
    requires pos <= |data|
    ensures var r := PictureSpec(data, pos, dataSize);
      pos + HEADER_SIZE > |data| ==> r == Err(EndOfStream)
    ensures var r := PictureSpec(data, pos, dataSize);
      pos + HEADER_SIZE <= |data| ==>
        var h := ParseContentHeader(data, pos);
        var sized := h.width >= 0 && h.height >= 0;
        && (r == Err(NeverTerminates) <==> sized && !PaddingTerminates(h.width, h.depth))
        && (r == Err(OutsideModel) <==>
              !sized || (PaddingTerminates(h.width, h.depth) && SupportedDepth(h.depth)
                         && EffectiveWidth(h.width, h.depth) * h.height >= TWO_32))
        && (r == Err(EndOfStream) <==>
              sized && PaddingTerminates(h.width, h.depth) && SupportedDepth(h.depth)
              && EffectiveWidth(h.width, h.depth) * h.height < TWO_32
              && pos + HEADER_SIZE + PaletteBytes(h.depth)
                 + BytesPerPixel(h.depth) * (EffectiveWidth(h.width, h.depth) * h.height) > |data|)
    ensures var r := PictureSpec(data, pos, dataSize);
      r.Ok? ==>
        var (rec, end) := r.value;
        && pos + HEADER_SIZE <= end <= |data|
        && rec.header == ParseContentHeader(data, pos)
        && (rec.image.None? <==> !SupportedDepth(rec.header.depth))
        && (rec.image.None? ==> end == pos + HEADER_SIZE)
        && (rec.image.Some? ==>
              var img := rec.image.value;
              && img.stride == EffectiveWidth(rec.header.width, rec.header.depth)
              && end == pos + HEADER_SIZE + PaletteBytes(rec.header.depth)
                        + BytesPerPixel(rec.header.depth) * (img.stride * rec.header.height))
  {
    if pos + HEADER_SIZE <= |data| {
      var h := ParseContentHeader(data, pos);
      var start := pos + HEADER_SIZE;
      if h.width >= 0 && h.height >= 0 && PaddingTerminates(h.width, h.depth) && SupportedDepth(h.depth) {
        var stride := EffectiveWidth(h.width, h.depth);
        ImageBytesConsumed(data, start, h.depth, stride, h.height, WidthHackApplies(h.width, h.depth));
      }
    }
  }

  /** Pixel k of the stream ends up at row k div stride, column k mod stride. */
  lemma PixelsInStreamOrder(data: seq<Byte>, start: nat, depth: int, stride: nat, height: nat, k: nat)
    requires SupportedDepth(depth) && start + PixelBytes(depth, stride * height) <= |data|
    requires k < stride * height
    ensures stride > 0 && k / stride < height
    ensures start + PixelBytes(depth, k + 1) <= |data|
    ensures Grid(data, start, depth, stride, height)[k / stride][k % stride] == PixelAt(data, start, depth, k)
  {
    var y, x := k / stride, k % stride;
    assert k == k / stride * stride + k % stride && k % stride < stride;
    if y >= height {
      MulMonotone(stride, height, y);
    }
    assert GridIndex(stride, y, x) == k;
  }

  /** The walk's running row counter: y is bumped exactly when k is a positive
      multiple of the stride, so it stays k div stride. */
  lemma RowCounter(k: nat, stride: nat)
    requires stride > 0
    ensures k / stride == (if k == 0 then 0 else (k - 1) / stride)
                          + (if k > stride - 1 && k % stride == 0 then 1 else 0)
  {
    if k > 0 {
      var q, rem := (k - 1) / stride, (k - 1) % stride;
      if rem + 1 == stride {
        DivModUnique(k, stride, q + 1, 0);
      } else {
        DivModUnique(k, stride, q, rem + 1);
      }
    }
  }

  /** The stream index of the pixel the walk writes at row y, column x, before the flip. */
  function MirrorIndex(stride: nat, height: nat, y: nat, x: nat): (k: nat)
    requires y < height && x < stride
    ensures k < stride * height
  {
    MulMonotone(stride, y + 1, height);
    GridIndex(stride, y, stride - 1 - x)
  }

  /** Step k of the walk writes inside the grid at the mirrored column, and no other
      cell of the grid has stream index k. */
  lemma WalkCell(k: nat, stride: nat, height: nat)
    requires k < stride * height
    ensures stride > 0 && k / stride < height && stride - k % stride - 1 < stride
    ensures MirrorIndex(stride, height, k / stride, stride - k % stride - 1) == k
    ensures forall y, x :: 0 <= y < height && 0 <= x < stride && MirrorIndex(stride, height, y, x) == k ==>
      y == k / stride && x == stride - k % stride - 1
  {
    if k / stride >= height {
      MulMonotone(stride, height, k / stride);
    }
    forall y, x | 0 <= y < height && 0 <= x < stride && MirrorIndex(stride, height, y, x) == k
      ensures y == k / stride && x == stride - k % stride - 1
    {
      DivModUnique(k, stride, y, stride - 1 - x);
    }
  }

  /** Reads the 40-byte content header. */
  method ReadContentHeader(rd: BinaryReader) returns (h: Option<ContentHeader>)
    requires rd.Valid()
    modifies rd
    ensures rd.Valid()
    ensures old(rd.pos) + HEADER_SIZE <= |rd.data| ==>
      h == Some(ParseContentHeader(rd.data, old(rd.pos))) && rd.pos == old(rd.pos) + HEADER_SIZE
    ensures old(rd.pos) + HEADER_SIZE > |rd.data| ==> h.None?
  {
    var headerLength := rd.ReadInt32();
    if headerLength.None? { return None; }
    var width := rd.ReadInt32();
    if width.None? { return None; }
    var height := rd.ReadInt32();
    if height.None? { return None; }
    var frameCount := rd.ReadInt16();
    if frameCount.None? { return None; }
    var depth := rd.ReadInt16();
    if depth.None? { return None; }
    var gap1 := rd.ReadInt32();
    if gap1.None? { return None; }
    var imageDataLength := rd.ReadInt32();
    if imageDataLength.None? { return None; }
    var mystery1 := rd.ReadInt32();
    if mystery1.None? { return None; }
    var mystery2 := rd.ReadInt32();
    if mystery2.None? { return None; }
    var gap2 := rd.ReadInt32();
    if gap2.None? { return None; }
    var endDataHeader := rd.ReadInt32();
    if endDataHeader.None? { return None; }
    h := Some(ContentHeader(headerLength.value, width.value, height.value, frameCount.value,
      depth.value, imageDataLength.value, mystery1.value, mystery2.value, endDataHeader.value));
  }

  /** Loads the 256 palette entries, four bytes each. */
  method LoadPalette(rd: BinaryReader, bitmap: Bitmap) returns (ok: bool)
    requires rd.Valid() && bitmap.palette.Length == PALETTE_ENTRIES
    modifies rd, bitmap.palette
    ensures rd.Valid()
    ensures ok <==> old(rd.pos) + PaletteBytes(8) <= |rd.data|
    ensures ok ==> rd.pos == old(rd.pos) + PaletteBytes(8)
    ensures ok ==> forall i :: 0 <= i < PALETTE_ENTRIES ==> bitmap.palette[i] == PaletteAt(rd.data, old(rd.pos), i)
  {
    ghost var start := rd.pos;
    var i := 0;
    while i < PALETTE_ENTRIES
      invariant 0 <= i <= PALETTE_ENTRIES
      invariant rd.Valid() && rd.pos == start + 4 * i
      invariant forall j :: 0 <= j < i ==> bitmap.palette[j] == PaletteAt(rd.data, start, j)
    {
      var palR := rd.ReadByte();
      if palR.None? { return false; }
      var palG := rd.ReadByte();
      if palG.None? { return false; }
      var palB := rd.ReadByte();
      if palB.None? { return false; }
      var palX := rd.ReadByte();
      if palX.None? { return false; }
      bitmap.palette[i] := Rgb(palB.value, palG.value, palR.value);
      i := i + 1;
    }
    ok := true;
  }

  /** Pixel k of the stream occupies BytesPerPixel bytes from start + k * BytesPerPixel:
      at depth 24 they are blue, green and red; at depth 16 the 16-bit decode of the two
      bytes; at depth 8 one palette index. */
  lemma PixelLayout(data: seq<Byte>, start: nat, depth: int, k: nat)
    requires SupportedDepth(depth) && start + BytesPerPixel(depth) * (k + 1) <= |data|
    ensures var q := start + BytesPerPixel(depth) * k;
      && (depth == 24 ==> PixelAt(data, start, depth, k) == Color(Argb(255, data[q + 2], data[q + 1], data[q])))
      && (depth == 16 ==> PixelAt(data, start, depth, k) == Color(Pixel16(data[q], data[q + 1])))
      && (depth == 8 ==> PixelAt(data, start, depth, k) == Index(data[q]))
  {
    assert BytesPerPixel(depth) * (k + 1) == BytesPerPixel(depth) * k + BytesPerPixel(depth);
  }

  /** The cells the walk has written after k steps: each cell whose stream index is
      below k holds that pixel of the stream. */
  ghost predicate Walked(bitmap: Bitmap, data: seq<Byte>, start: nat, depth: int, k: nat)
    reads bitmap, bitmap.cells
    requires bitmap.Valid() && SupportedDepth(depth)
  {
    forall r, c :: 0 <= r < bitmap.height && 0 <= c < bitmap.width && MirrorIndex(bitmap.width, bitmap.height, r, c) < k ==>
      bitmap.cells[r, c] == PixelAt(data, start, depth, MirrorIndex(bitmap.width, bitmap.height, r, c))
  }

  /** Step k of the walk stores its pixel at row y, column newx. */
  method StorePixel(bitmap: Bitmap, k: nat, y: nat, newx: nat, pixel: Pixel,
                    ghost data: seq<Byte>, ghost start: nat, ghost depth: int)
    requires bitmap.Valid() && k < bitmap.width * bitmap.height
    requires y == k / bitmap.width && newx == bitmap.width - k % bitmap.width - 1
    requires SupportedDepth(depth) && start + PixelBytes(depth, k + 1) <= |data|
    requires pixel == PixelAt(data, start, depth, k)
    requires Walked(bitmap, data, start, depth, k)
    modifies bitmap.cells
    ensures Walked(bitmap, data, start, depth, k + 1)
  {
    WalkCell(k, bitmap.width, bitmap.height);
    bitmap.SetPixel(newx, y, pixel);
  }

  /** The pixel loop: pixel k is read, x = k mod stride, the row counter y is bumped at
      each new row, and the pixel is stored at the mirrored column stride - x - 1. */
  method WalkPixels(rd: BinaryReader, bitmap: Bitmap, depth: int, totalPixels: nat) returns (ok: bool)
    requires rd.Valid() && bitmap.Valid() && SupportedDepth(depth)
    requires totalPixels == bitmap.width * bitmap.height
    modifies rd, bitmap.cells
    ensures rd.Valid()
    ensures ok <==> old(rd.pos) + PixelBytes(depth, totalPixels) <= |rd.data|
    ensures ok ==> rd.pos == old(rd.pos) + PixelBytes(depth, totalPixels)
    ensures ok ==> Walked(bitmap, rd.data, old(rd.pos), depth, totalPixels)
  {
    ghost var start := rd.pos;
    var y: nat := 0;
    var k: nat := 0;
    while k < totalPixels
      invariant k <= totalPixels
      invariant rd.Valid() && rd.pos == start + PixelBytes(depth, k)
      invariant y == (if k == 0 then 0 else (k - 1) / bitmap.width)
      invariant Walked(bitmap, rd.data, start, depth, k)
    {
      var stepped;
      stepped, y := WalkStep(rd, bitmap, depth, k, y, start);
      if !stepped {
        return false;
      }
      k := k + 1;
    }
    ok := true;
  }

  /** Reads pixel k of the stream: ReadBytes(2) and the 16-bit decode at depth 16,
      ReadBytes(3) at depth 24, ReadByte (a palette index) at depth 8. */
  method ReadPixel(rd: BinaryReader, depth: int, k: nat, ghost start: nat) returns (pixel: Option<Pixel>)
    requires rd.Valid() && SupportedDepth(depth)
    requires rd.pos == start + PixelBytes(depth, k)
    modifies rd
    ensures rd.Valid()
    ensures pixel.Some? <==> start + PixelBytes(depth, k + 1) <= |rd.data|
    ensures pixel.Some? ==> pixel.value == PixelAt(rd.data, start, depth, k) && rd.pos == start + PixelBytes(depth, k + 1)
  {
    assert PixelBytes(depth, k + 1) == PixelBytes(depth, k) + BytesPerPixel(depth);
    if depth == 16 {
      var color16 := rd.ReadBytes(2);
      if |color16| < 2 { return None; }
      assert color16 == rd.data[old(rd.pos)..old(rd.pos) + 2];
      pixel := Some(Color(Pixel16(color16[0], color16[1])));
    } else if depth == 24 {
      var color24 := rd.ReadBytes(3);
      if |color24| < 3 { return None; }
      assert color24 == rd.data[old(rd.pos)..old(rd.pos) + 3];
      pixel := Some(Color(Pixel24(color24[0], color24[1], color24[2])));
    } else {
      var color8 := rd.ReadByte();
      if color8.None? { return None; }
      pixel := Some(Index(color8.value));
    }
  }

  /** One step of the pixel loop, for pixel k. At depths 16 and 24 the pixel is read
      before the row counter is updated, at depth 8 after it. */
  method WalkStep(rd: BinaryReader, bitmap: Bitmap, depth: int, k: nat, y0: nat, ghost start: nat)
    returns (ok: bool, y: nat)
    requires rd.Valid() && bitmap.Valid() && SupportedDepth(depth)
    requires k < bitmap.width * bitmap.height
    requires rd.pos == start + PixelBytes(depth, k)
    requires y0 == (if k == 0 then 0 else (k - 1) / bitmap.width)
    requires Walked(bitmap, rd.data, start, depth, k)
    modifies rd, bitmap.cells
    ensures rd.Valid()
    ensures ok <==> start + PixelBytes(depth, k + 1) <= |rd.data|
    ensures ok ==> rd.pos == start + PixelBytes(depth, k + 1)
    ensures ok ==> y == k / bitmap.width && Walked(bitmap, rd.data, start, depth, k + 1)
  {
    var stride := bitmap.width;
    y := y0;
    var pixel: Option<Pixel> := None;
    if depth != 8 {
      pixel := ReadPixel(rd, depth, k, start);
      if pixel.None? { return false, y; }
    }
    RowCounter(k, stride);
    var x := k % stride;
    if k > stride - 1 && k % stride == 0 {
      y := y + 1;
    }
    var newx := stride - x - 1;
    if depth == 8 {
      pixel := ReadPixel(rd, depth, k, start);
      if pixel.None? { return false, y; }
    }
    StorePixel(bitmap, k, y, newx, pixel.value, rd.data, start, depth);
    ok := true;
  }

  /** Decodes a picture record from the reader's position: the method the spec
      function PictureSpec describes. */
  method DecodePicture(rd: BinaryReader, dataSize: int) returns (r: Result<PictureRecord>)
    requires rd.Valid()
    modifies rd
    ensures rd.Valid()
    ensures r == Value(PictureSpec(rd.data, old(rd.pos), dataSize))
    ensures r.Ok? ==> rd.pos == PictureSpec(rd.data, old(rd.pos), dataSize).value.1
  {
    var header := ReadContentHeader(rd);
    if header.None? {
      return Err(EndOfStream);
    }
    r := DecodePictureBody(rd, header.value, dataSize);
  }

  /** Everything after the content header: the width correction, the pixel count and
      the image; the method PictureBodySpec describes. */
  method DecodePictureBody(rd: BinaryReader, h: ContentHeader, dataSize: int) returns (r: Result<PictureRecord>)
    requires rd.Valid()
    modifies rd
    ensures rd.Valid()
    ensures r == Value(PictureBodySpec(rd.data, old(rd.pos), h, dataSize))
    ensures r.Ok? ==> rd.pos == PictureBodySpec(rd.data, old(rd.pos), h, dataSize).value.1
  {
    var paletteSize := PaletteSizeFor8Bit(dataSize, h);
    if h.width < 0 || h.height < 0 {
      return Err(OutsideModel);
    }
    if !PaddingTerminates(h.width, h.depth) {
      return Err(NeverTerminates);
    }
    var stride, widthHackApplied := CorrectWidth(h.width, h.depth);
    if !SupportedDepth(h.depth) {
      return Ok(PictureRecord(h, paletteSize, None));
    }
    var totalPixels: nat;
    if widthHackApplied {
      totalPixels := stride * h.height;
    } else {
      EffectiveWidthCases(h.width, h.depth);
      totalPixels := h.width * h.height;
    }
    if totalPixels >= TWO_32 {
      return Err(OutsideModel);
    }
    var image := DecodeImage(rd, h.depth, stride, h.height, widthHackApplied, totalPixels);
    match image
    case Err(e) => r := Err(e);
    case Ok(img) => r := Ok(PictureRecord(h, paletteSize, Some(img)));
  }

  /** Allocates the bitmap, loads the palette of an 8-bit record, walks the pixels and
      flips the bitmap: the method ImageSpec describes. */
  method DecodeImage(rd: BinaryReader, depth: int, stride: nat, height: nat, widthHackApplied: bool,
                     totalPixels: nat) returns (r: Result<DecodedImage>)
    requires rd.Valid() && SupportedDepth(depth) && totalPixels == stride * height
    modifies rd
    ensures rd.Valid()
    ensures r == Value(ImageSpec(rd.data, old(rd.pos), depth, stride, height, widthHackApplied))
    ensures r.Ok? ==> rd.pos == ImageSpec(rd.data, old(rd.pos), depth, stride, height, widthHackApplied).value.1
  {
    var background :=
      if depth == 16 then Color(Argb(255, 255, 255, 255))
      else if depth == 24 then Color(Argb(0, 0, 0, 0))
      else Index(0);
    var bitmap := new Bitmap(stride, height, background, if depth == 8 then PALETTE_ENTRIES else 0);
    ghost var start := rd.pos;
    if depth == 8 {
      var paletteRead := LoadPalette(rd, bitmap);
      if !paletteRead {
        return Err(EndOfStream);
      }
    }
    ghost var pixelStart := rd.pos;
    var pixelsRead := WalkPixels(rd, bitmap, depth, totalPixels);
    if !pixelsRead {
      return Err(EndOfStream);
    }
    assert Walked(bitmap, rd.data, pixelStart, depth, totalPixels);
    label Walked:
    bitmap.FlipHorizontal();
    var rows := bitmap.Rows();
    var palette := bitmap.palette[..];
    forall y, x | 0 <= y < height && 0 <= x < stride
      ensures rows[y][x] == PixelAt(rd.data, pixelStart, depth, GridIndex(stride, y, x))
    {
      var c := stride - 1 - x;
      assert rows[y][x] == bitmap.cells[y, x] == old@Walked(bitmap.cells[y, c]);
      assert MirrorIndex(stride, height, y, c) == GridIndex(stride, y, x);
    }
    RowsAreGrid(rows, rd.data, pixelStart, depth, stride, height);
    assert palette == Palette(rd.data, start, depth);
    r := Ok(DecodedImage(stride, widthHackApplied, rows, palette));
  }

  /** Rows that hold pixel y * stride + x at row y, column x are the grid. */
  lemma RowsAreGrid(rows: seq<seq<Pixel>>, data: seq<Byte>, start: nat, depth: int, stride: nat, height: nat)
    requires SupportedDepth(depth)
    requires |rows| == height && forall y :: 0 <= y < height ==> |rows[y]| == stride
    requires forall y, x :: 0 <= y < height && 0 <= x < stride ==>
      rows[y][x] == PixelAt(data, start, depth, GridIndex(stride, y, x))
    ensures rows == Grid(data, start, depth, stride, height)
  {
    var grid := Grid(data, start, depth, stride, height);
    forall y | 0 <= y < height
      ensures rows[y] == grid[y]
    {
    }
  }
}
