# IMP2DEC archive decoder, modelled in Dafny

IMP2DEC unpacks the `.RSRC` resource archives of the PC version of Imperialism II.
An archive starts with a 16-byte header:

- the magic `rsrc`;
- three bytes, each followed by three padding bytes: version 1, version 2 and the record count (0–255).

Then comes a table of descriptors. A `TCIP` (picture) or ` dns` (sound) entry holds a
record id, a start offset and a data size. The records follow the table, read one
after the other in table order.

- A **picture** record has a 40-byte content header, then for 8-bit images a
  256-entry palette, then the pixels at 8, 16 (ARGB 1-5-5-5) or 24 bits.
  - Odd widths, and at 8 bits widths that are not a multiple of 4, are padded to a
    wider stride.
  - Each pixel is written at the mirrored column of its row, and the whole bitmap is
    flipped horizontally at the end.
- A **sound** record has a 20-byte header and a raw PCM payload. The decoder writes
  the payload into a 44-byte RIFF/WAVE header of its own.

The model has one module per part of the decoder:

- `Bytes`: Int32/Int16 little-endian encoding, wrap-around and truncating division.
- `Utilities`: the bit helpers `GetBits`, `GetColorFrom2Bytes`, `GetIntBinaryString` and `GetInt16BinaryString`.
- `Stream`: a `BinaryReader` class over an in-memory byte sequence, with a cursor, and a `BinaryWriter` class that appends bytes.
- `WidthQuirk`: the two `do/while` padding loops.
- `Raster`: a `Bitmap` class over an `array2` of cells and a palette array. It stands in for the FreeImage bitmap and has `SetPixel` and an in-place `FlipHorizontal`.
- `Picture`: the content header, the palette load, the pixel walk and the flip.
- `Sound`: the sound header and the WAV serialisation.
- `Archive`: the header, the descriptor table and the data pass.

Each imperative method is proved equal to a pure specification function of the input
bytes and the start position:

- `DecodePicture` to `PictureSpec`;
- `DecodeSound` to `SoundSpec`;
- `ReadTable` to `TableSpec`;
- `DecodeArchive` to `ArchiveSpec`.

The properties are lemmas about those functions.

A run that the program would end with an uncaught exception ends with the status
`Aborted(EndOfStream)` or `Aborted(NegativeCount)`. A run that loops forever ends with
`Aborted(NeverTerminates)`.

The model follows the code where it differs from what one might expect:

- A descriptor with an unrecognised tag is never stored. Its table entry keeps the
  default value (null type, slot 0, zero fields), and its tag is lost
  (`SOURCE/Program.cs:360-375`).
- A picture record consumes exactly what the decoder computes from its header, whatever
  its declared data size. A record whose depth is not 8, 16 or 24 consumes only its 40
  header bytes (`SOURCE/Program.cs:401`, `SOURCE/Program.cs:538-724`).
- The bitmap is allocated at the padded stride rather than the declared width, so the
  padding columns stay in the image (`SOURCE/Program.cs:476`, `SOURCE/Program.cs:492`,
  `SOURCE/Program.cs:506`).
- An odd width at a depth other than 8 or 16 makes the first padding loop run forever,
  so an odd-width 24-bit image, width 3 for example, never finishes decoding
  (`SOURCE/Program.cs:408-426`).

## Model

| member | source | states |
|---|---|---|
| Bytes.Wrap32 | SOURCE/Program.cs:394 | Int32 arithmetic: the result is an Int32 congruent to the exact value modulo 2^32, and equal to it when it is in range |
| Bytes.Wrap16 | SOURCE/Program.cs:824 | the `(short)` cast: an Int16 congruent to the value modulo 2^16, the value itself when in range |
| Bytes.TruncDiv | SOURCE/Program.cs:826 | C# integer division rounds toward zero: the remainder a - q*d lies in [0, d) for a non-negative dividend and in (-d, 0] for a negative one |
| Bytes.TruncDivOfNonNegative | SOURCE/Program.cs:826 | for a non-negative dividend the C# quotient is the floor quotient a / d |
| Bytes.TruncDivNegate | SOURCE/Program.cs:826 | negating the dividend negates the quotient: truncation is symmetric about zero |
| Bytes.Int32RoundTrip | SOURCE/Program.cs:363-365 | ReadInt32 of the four little-endian bytes BinaryWriter writes for an Int32 gives that Int32 back |
| Bytes.Int16RoundTrip | SOURCE/Program.cs:390-391 | ReadInt16 of the two bytes written for a value gives the value's `(short)` cast |
| Bytes.EncodeWrapped | SOURCE/Program.cs:824 | the bytes written for an Int32 or a short depend only on the value's low 32 or 16 bits |
| Utilities.GetBits | SOURCE/Program.cs:66-69 | the result is below 2^count and is the count bits of b that start offset bits from the right: b >> offset == ((b >> (offset + count)) << count) + r |
| Utilities.GetBitsExample | SOURCE/Program.cs:61-64 | the documented example GetBits(00110101b, 2, 4) == 13 |
| Utilities.GetColorFrom2Bytes | SOURCE/Program.cs:82-121 | alpha is 0 or 255; each channel is a multiple of 8 and at most 248; the word one*256+two is recovered from alpha/255, r/8, g/8 and b/8, so the `>= 248` branch changes nothing |
| Utilities.ColorFromWord | SOURCE/Program.cs:78-106 | over v = one*256+two: r = ((v>>10)&31)<<3, g = ((v>>5)&31)<<3, b = (v&31)<<3, a = 255 * bit 15 |
| Utilities.UnpackPack | SOURCE/Program.cs:78-106 | unpacking the two bytes of an alpha bit and three 5-bit channels gives each channel shifted left by 3 and alpha 255 times the bit |
| Utilities.PackUnpack | SOURCE/Program.cs:82-121 | the unpacker is injective: packing its channels back gives the original two bytes |
| Utilities.BinaryDigitsRoundTrip | SOURCE/Program.cs:131-151 | the digit string read back as a binary number is u modulo 2^width |
| Utilities.BinaryDigitAt | SOURCE/Program.cs:139-147 | position width-1-i of the string is '1' exactly when bit i of u is set |
| Utilities.FillBinaryDigits | SOURCE/Program.cs:133-150 | the loop with the decrementing position yields width digits whose value is u mod 2^width and whose digit for bit i is '1' iff `(n & (1 << i)) != 0` |
| Utilities.GetIntBinaryString | SOURCE/Program.cs:131-151 | 32 binary digits whose value is n modulo 2^32 (two's complement for negative n) |
| Utilities.GetInt16BinaryString | SOURCE/Program.cs:161-181 | 16 binary digits whose value is n modulo 2^16 |
| Stream.BytesAt | SOURCE/Program.cs:807 | ReadBytes(count) returns min(count, bytes left) bytes, the ones at the cursor |
| Stream.BinaryReader.constructor | SOURCE/Program.cs:327 | the reader starts at position 0 of the input bytes |
| Stream.BinaryReader.ReadByte | SOURCE/Program.cs:332-346 | returns the byte at the cursor and advances by one, or fails at the end of the stream without moving |
| Stream.BinaryReader.ReadBytes | SOURCE/Program.cs:798 | returns the available bytes up to count and advances past them |
| Stream.BinaryReader.ReadInt32 | SOURCE/Program.cs:363-365 | returns the little-endian Int32 at the cursor and advances by 4, or fails when fewer than 4 bytes are left |
| Stream.BinaryReader.ReadInt16 | SOURCE/Program.cs:390-391 | returns the little-endian Int16 at the cursor and advances by 2, or fails when fewer than 2 bytes are left |
| Stream.BinaryWriter.constructor | SOURCE/Program.cs:817 | the writer starts empty |
| Stream.BinaryWriter.WriteInt32 | SOURCE/Program.cs:820 | appends exactly the four little-endian bytes of the value |
| Stream.BinaryWriter.WriteInt16 | SOURCE/Program.cs:823-824 | appends exactly the two little-endian bytes of the value's low 16 bits |
| Stream.BinaryWriter.WriteBytes | SOURCE/Program.cs:833 | appends exactly the given bytes |
| WidthQuirk.EffectiveWidthCases | SOURCE/Program.cs:403-450 | odd W at depth 16 gives W+1; odd W at depth 8 gives the smallest multiple of 4 above W; even W not a multiple of 4 at depth 8 gives W+2; the hack flag is set iff the stride differs from W; W <= stride <= W+3 |
| WidthQuirk.OddWidthLoopNeverExits | SOURCE/Program.cs:408-425 | for an odd width at a depth other than 8 or 16, after any number n of passes of the do/while loop the stride is width+n and the exit flag is still clear, so the loop never ends |
| WidthQuirk.CorrectWidth | SOURCE/Program.cs:403-450 | the two do/while loops end with the stride EffectiveWidth describes and the flag WidthHackApplies describes; for an odd width the loop follows OddWidthRun pass by pass and stops at the first pass whose stride passes the depth's test |
| Raster.Bitmap.constructor | SOURCE/Program.cs:476-510 | a fresh width x height bitmap with every cell set to the background and a palette of black entries |
| Raster.Bitmap.SetPixel | SOURCE/Program.cs:680 | sets cell (x, y) and leaves every other cell unchanged |
| Raster.Bitmap.MirrorRow | SOURCE/Program.cs:733 | reverses row y in place and leaves every other row unchanged |
| Raster.Bitmap.FlipHorizontal | SOURCE/Program.cs:733 | every cell (y, x) afterwards holds what cell (y, width-1-x) held before |
| Picture.ParseContentHeader | SOURCE/Program.cs:387-398 | the header fields are Int32 or Int16 values |
| Picture.ContentHeaderRoundTrip | SOURCE/Program.cs:387-398 | parsing the 40 bytes of an encoded content header gives it back: the fields sit at offsets 0, 4, 8, 12, 14, 20, 24, 28 and 36 |
| Picture.PaletteSizeFor8Bit | SOURCE/Program.cs:394 | paletteSizeFor8BitImages is the Int32 congruent to dataSize - headerLength - imageDataLength, and equal to it without overflow |
| Picture.Pixel16 | SOURCE/Program.cs:579-608 | stream bytes FF FF give ARGB(255,255,255,255); FF 7F give ARGB(127,255,255,255); any other c0, c1 give GetColorFrom2Bytes(c1, c0) |
| Picture.PixelLayout | SOURCE/Program.cs:575-710 | pixel k occupies BytesPerPixel bytes from start + k*BytesPerPixel; at depth 24 they are blue, green, red (Color.FromArgb(c[2], c[1], c[0]), opaque); at depth 16 the Pixel16 decode of the two bytes; at depth 8 one palette index |
| Picture.OverridesChangeTheColour | SOURCE/Program.cs:582-600 | without the overrides those two words would decode to ARGB(255,248,248,248) and ARGB(0,248,248,248) |
| Picture.Palette | SOURCE/Program.cs:550-565 | an 8-bit record's palette has 256 entries from 1024 bytes; entry i is red = byte 4i+2, green = 4i+1, blue = 4i; other depths carry none |
| Picture.PaletteLayout | SOURCE/Program.cs:550-565 | a palette stored as blue, green, red and a spare byte per entry decodes to exactly its 256 colours: reading the bytes as palR, palG, palB and storing (palB, palG, palR) undoes the stored order |
| Picture.Grid | SOURCE/Program.cs:629-667 | the pixels as height rows of stride cells, cell (y, x) holding pixel y*stride+x |
| Picture.ImageBytesConsumed | SOURCE/Program.cs:538-724 | an image decodes iff its palette and pixel bytes are all there; it then ends exactly 1024 (depth 8) + stride*height*bytesPerPixel bytes further on |
| Picture.ImageSpec | SOURCE/Program.cs:538-724 | the palette and pixels of a record end inside the stream, after their start |
| Picture.PictureBytesConsumed | SOURCE/Program.cs:383-724 | a picture record takes 40 header bytes, then nothing more at an unsupported depth, else the palette and pixel bytes; the failure cases are a short stream, negative dimensions, a non-terminating width loop and a wrapping pixel count |
| Picture.PictureSpec | SOURCE/Program.cs:383-724 | a decoded picture record ends inside the stream, after its start |
| Picture.PictureBodySpec | SOURCE/Program.cs:394-724 | what follows the content header ends inside the stream, after the header |
| Picture.PixelsInStreamOrder | SOURCE/Program.cs:629-733 | after the mirrored writes and the flip, stream pixel k is at row k div stride, column k mod stride |
| Picture.RowCounter | SOURCE/Program.cs:636-650 | the running y update (bump when k > stride-1 and k mod stride = 0) keeps y == k div stride |
| Picture.MirrorIndex | SOURCE/Program.cs:658-667 | the stream index written to row y, column x lies inside the pixel count |
| Picture.WalkCell | SOURCE/Program.cs:629-667 | step k writes row k div stride, column stride - (k mod stride) - 1 < stride, and no other step writes that cell |
| Picture.ReadContentHeader | SOURCE/Program.cs:387-398 | reads the 40-byte header ParseContentHeader describes and advances by 40, or fails when fewer than 40 bytes are left |
| Picture.LoadPalette | SOURCE/Program.cs:550-565 | reads exactly 1024 bytes and stores the entries Palette describes, or fails when the stream is shorter |
| Picture.ReadPixel | SOURCE/Program.cs:575-710 | reads pixel k (two bytes at depth 16, three at depth 24, one index at depth 8) and advances past it, or fails when those bytes are not all there |
| Picture.StorePixel | SOURCE/Program.cs:669-721 | storing pixel k at its mirrored cell extends the walked prefix from k to k+1 pixels |
| Picture.WalkStep | SOURCE/Program.cs:575-724 | one loop iteration reads pixel k, keeps y == k div stride and stores the pixel at its mirrored cell |
| Picture.WalkPixels | SOURCE/Program.cs:575-724 | the pixel loop succeeds iff all pixel bytes are there, advances past exactly them, and leaves every cell holding its mirrored stream pixel |
| Picture.DecodeImage | SOURCE/Program.cs:463-733 | allocating, loading the palette, walking and flipping give exactly the image ImageSpec describes, with the cursor at its end |
| Picture.DecodePictureBody | SOURCE/Program.cs:394-733 | the width correction, pixel count and image decode give exactly PictureBodySpec's result and end position |
| Picture.DecodePicture | SOURCE/Program.cs:383-733 | decoding a picture record gives exactly PictureSpec's record and end position |
| Picture.RowsAreGrid | SOURCE/Program.cs:733 | rows holding pixel y*stride+x at (y, x) are the grid |
| Sound.SoundBytesConsumed | SOURCE/Program.cs:798-807 | a sound record takes its 20 header bytes and then dataSize-20 payload bytes, or what is left; it fails iff the header is short or dataSize-20 is negative |
| Sound.SoundSpec | SOURCE/Program.cs:798-807 | a decoded sound record ends inside the stream, after its start |
| Sound.DecodeSound | SOURCE/Program.cs:798-807 | reading the tag, the four Int32 fields and the payload gives exactly SoundSpec's clip and end position |
| Sound.ByteRate | SOURCE/Program.cs:826 | the byte rate computed in Int32 arithmetic is an Int32 |
| Sound.ByteRateExact | SOURCE/Program.cs:826 | without overflow the byte rate is sampleRate*(bits*channels)/8 |
| Sound.WavHeaderOf | SOURCE/Program.cs:818-832 | the header fields written are Int32 and Int16 values |
| Sound.EncodeFormat | SOURCE/Program.cs:819-830 | the RIFF header and fmt chunk take 36 bytes |
| Sound.EncodeWavHeader | SOURCE/Program.cs:819-832 | the WAV header takes 44 bytes |
| Sound.FormatFields | SOURCE/Program.cs:819-830 | the fields of the fmt part read back from their offsets 4, 16, 20, 22, 24, 28, 32 and 34 behind the RIFF and WAVEfmt tags |
| Sound.WavHeaderRoundTrip | SOURCE/Program.cs:819-832 | parsing an encoded 44-byte header gives every field back |
| Sound.WavFileLayout | SOURCE/Program.cs:818-833 | the WAV file is the 44-byte header and the whole payload; its RIFF size is dataLength+16, 20 less than the canonical file length - 8 |
| Sound.WavExample | SOURCE/Program.cs:818-833 | 100 payload bytes, 2 channels, 22050 Hz, 16 bits: RIFF size 116, byte rate 88200, block align 4, a 144-byte file |
| Sound.FormatAsWritten | SOURCE/Program.cs:819-830 | the header bytes with the casts applied equal the bytes of the raw values the decoder writes |
| Sound.WriteFormat | SOURCE/Program.cs:817-830 | the sequence of writes produces exactly the format part of the clip's header |
| Sound.WriteWav | SOURCE/Program.cs:817-833 | the sequence of writes produces exactly WavFile(clip) |
| Archive.EncodeArchiveHeader | SOURCE/Program.cs:329-346 | the archive header takes 16 bytes |
| Archive.ArchiveHeaderRoundTrip | SOURCE/Program.cs:329-346 | an encoded header carries the magic and parses back to its versions and record count |
| Archive.DescriptorSpec | SOURCE/Program.cs:354-369 | a descriptor ends inside the stream |
| Archive.EncodeDescriptor | SOURCE/Program.cs:354-365 | a recognised descriptor takes 16 bytes |
| Archive.DescriptorRoundTrip | SOURCE/Program.cs:354-369 | a recognised descriptor encoded at any position is read back whole, as slot i+1, 16 bytes further on |
| Archive.DescriptorShape | SOURCE/Program.cs:354-375 | a recognised tag consumes 16 bytes and gives slot i+1; any other tag consumes 4 and leaves the default entry |
| Archive.TableSpec | SOURCE/Program.cs:352-376 | the table ends inside the stream, after its start |
| Archive.TableShape | SOURCE/Program.cs:349-376 | the table has exactly recordCount entries, each the default or numbered by position, and takes 4 bytes per entry plus 12 per recognised one |
| Archive.RecordEndsInStream | SOURCE/Program.cs:381-842 | a decoded record ends inside the stream; it yields an output exactly when its entry is a picture or a sound |
| Archive.RecordSpec | SOURCE/Program.cs:381-842 | a decoded record of any type ends inside the stream, after its start |
| Archive.DataPass | SOURCE/Program.cs:381-842 | the data pass ends either completed or aborted, and yields at most one output per remaining table entry |
| Archive.ArchiveSpec | SOURCE/Program.cs:327-847 | the run is NotAnArchive exactly when the magic is not "rsrc", and yields at most one output per table entry |
| Archive.Known | SOURCE/Program.cs:381-842 | the recognised entries are table entries with a type, as many as KnownCount says |
| Archive.RecordOutput | SOURCE/Program.cs:381-842 | a record's output carries its entry's slot, record id and kind; an unset entry reads nothing and yields nothing |
| Archive.DataPassFollowsTable | SOURCE/Program.cs:381-842 | the data pass yields one output per recognised entry in table order and stops at the first failing record; it completes iff it yields all of them |
| Archive.ArchiveShape | SOURCE/Program.cs:327-847 | the run stops with nothing read iff the magic is not "rsrc"; otherwise the header is parsed, the table has recordCount well-formed entries, and the outputs follow the table |
| Archive.OutputSlotsInTable | SOURCE/Program.cs:357 | every output's slot is between 1 and the number of table entries |
| Archive.EmptyArchive | SOURCE/Program.cs:343-381 | an archive declaring no records completes with an empty table and no outputs |
| Archive.StartOffsetIgnored | SOURCE/Program.cs:364-367 | changing the start offsets of the table leaves the data pass unchanged: records are read sequentially |
| Archive.RecordOffsetIgnored | SOURCE/Program.cs:364-367 | a record decodes the same whatever the start offset of its entry, since it is read from the current position |
| Archive.ReadPaddedByte | SOURCE/Program.cs:332-336 | reads a header byte and its three padding bytes, or fails when fewer than 4 bytes are left |
| Archive.ReadDescriptor | SOURCE/Program.cs:354-369 | reads exactly the descriptor DescriptorSpec describes, advancing to its end |
| Archive.ReadTable | SOURCE/Program.cs:349-376 | filling the recHeads array gives exactly TableSpec's table and end position |
| Archive.DecodeRecord | SOURCE/Program.cs:383-841 | dispatching on the entry's type gives exactly RecordSpec's output and end position |
| Archive.DecodeNext | SOURCE/Program.cs:381-842 | one iteration of the data pass appends the record's output, or ends the pass with its failure |
| Archive.RunDataPass | SOURCE/Program.cs:381-842 | the data pass loop gives exactly DataPass's outputs and status |
| Archive.DecodeArchive | SOURCE/Program.cs:327-847 | a run over the archive bytes gives exactly ArchiveSpec's outcome |

## Left out

- Console output, the banner, `ReadKey`, the command line, `File.Exists`, the output directory, file names and `Environment.Exit`. These are I/O; the input is a byte sequence and the outputs are returned values.
- FreeImage: `AllocateEx`/`Allocate`, `GetPaletteEx`, `SetPixelColor`/`SetPixelIndex`, `SaveEx` and `UnloadEx`. They are replaced by the `Raster.Bitmap` class. BMP/PNG encoding and `GC.Collect` are not modelled.
- `File.WriteAllBytes` of the raw sound data. The payload is kept in the output as `SoundClip.payload`, and the WAV file is returned as bytes rather than written to disk.
- `ReadChars(4)` text decoding: tags and the magic are compared as raw ASCII bytes. A tag holding non-ASCII bytes, which UTF-8 decoding can read as more or fewer than 4 bytes, is not modelled.
- `printIntBits`, `printUShortBits`, `IntToBinaryString`, `ReverseBytes` and `GetEncoderInfo`: console output, library calls, or code nothing calls.
- Utilities.GetBits: requires offset and count below 32. C# masks larger shift counts, and the decoder never passes one.
- Picture.PictureBodySpec: negative widths or heights, and pixel counts that wrap around 2^32 in the source's `uint` arithmetic, end in `Aborted(OutsideModel)` instead of being decoded. So does the allocation that would follow them.
- Picture.PixelAt: past the end of the stream it returns index 0. That value is never used, because a short stream fails the whole record.
- The unused `tileSectionLength`, `sampRate16` and `numSamples` values (read or computed, never used). `numSamples` is kept as `SoundHeader.sampleCount`.
- The end-of-stream exception and the index error after a short `ReadBytes(2)`/`ReadBytes(3)` both end in `Aborted(EndOfStream)`; `ReadBytes` with a negative count ends in `Aborted(NegativeCount)`. A failed bitmap allocation (FreeImage returning a null handle) is not modelled.
