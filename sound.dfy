/** The sound (" dns") record decoder and the RIFF/WAVE file written for each clip. */
module Sound {
  import opened Bytes
  import opened Stream

  const SOUND_HEADER_SIZE: nat := 20
  const WAV_HEADER_SIZE: nat := 44

  /** The 20-byte header of a sound record: a 4-byte tag and four Int32 fields. */
  datatype SoundHeader = SoundHeader(
    tag: seq<Byte>,
    channels: int,
    sampleRate: int,
    bitsPerSample: int,
    sampleCount: int)

  /** A decoded clip: its header, the declared payload length dataSize - 20 and the
      payload as read, which is shorter than declared when the stream ends first. */
  datatype SoundClip = SoundClip(header: SoundHeader, dataLength: int, payload: seq<Byte>)

  /** The sound record at position pos, and the position after it. */
  function SoundSpec(data: seq<Byte>, pos: nat, dataSize: int): (r: Result<(SoundClip, nat)>)
    requires pos <= |data|
    ensures r.Ok? ==> pos <= r.value.1 <= |data|
  {
    if pos + SOUND_HEADER_SIZE > |data| then Err(EndOfStream)
    else
      var header := SoundHeader(data[pos..pos + 4], Int32At(data, pos + 4), Int32At(data, pos + 8),
        Int32At(data, pos + 12), Int32At(data, pos + 16));
      var dataLength := Wrap32(dataSize - SOUND_HEADER_SIZE);
      if dataLength < 0 then Err(NegativeCount)
      else
        var payload := BytesAt(data, pos + SOUND_HEADER_SIZE, dataLength);
        Ok((SoundClip(header, dataLength, payload), pos + SOUND_HEADER_SIZE + |payload|))
  }

  /** A sound record takes its 20 header bytes and then dataSize - 20 payload bytes, or
      what is left of the stream when that is less. */
  lemma SoundBytesConsumed(data: seq<Byte>, pos: nat, dataSize: int)
    requires pos <= |data|
    ensures var r := SoundSpec(data, pos, dataSize);
      && (r.Err? <==> pos + SOUND_HEADER_SIZE > |data| || Wrap32(dataSize - SOUND_HEADER_SIZE) < 0)
      && (r.Ok? ==>
            && r.value.0.dataLength == Wrap32(dataSize - SOUND_HEADER_SIZE)
            && r.value.1 == pos + SOUND_HEADER_SIZE + Min(r.value.0.dataLength, |data| - pos - SOUND_HEADER_SIZE)
            && r.value.1 <= |data|
            && (SOUND_HEADER_SIZE <= dataSize && IsInt32(dataSize) ==> r.value.0.dataLength == dataSize - SOUND_HEADER_SIZE)
            && r.value.0.payload == data[pos + SOUND_HEADER_SIZE..r.value.1])
  {
  }

  /** Reads a sound record: a 4-byte tag, four Int32 fields, then dataSize - 20 bytes. */
  method DecodeSound(rd: BinaryReader, dataSize: int) returns (r: Result<SoundClip>)
    requires rd.Valid()
    modifies rd
    ensures rd.Valid()
    ensures r == Value(SoundSpec(rd.data, old(rd.pos), dataSize))
    ensures r.Ok? ==> rd.pos == SoundSpec(rd.data, old(rd.pos), dataSize).value.1
  {
    var tag := rd.ReadBytes(4);
    var channels := rd.ReadInt32();
    if channels.None? { return Err(EndOfStream); }
    var sampleRate := rd.ReadInt32();
    if sampleRate.None? { return Err(EndOfStream); }
    var bitsPerSample := rd.ReadInt32();
    if bitsPerSample.None? { return Err(EndOfStream); }
    var sampleCount := rd.ReadInt32();
    if sampleCount.None? { return Err(EndOfStream); }
    var dataLength := Wrap32(dataSize - SOUND_HEADER_SIZE);
    if dataLength < 0 {
      return Err(NegativeCount);
    }
    var payload := rd.ReadBytes(dataLength);
    var header := SoundHeader(tag, channels.value, sampleRate.value, bitsPerSample.value, sampleCount.value);
    r := Ok(SoundClip(header, dataLength, payload));
  }

  /** The numeric fields of a 44-byte RIFF/WAVE header. */
  datatype WavHeader = WavHeader(
    chunkSize: int,
    fmtSize: int,
    formatTag: int,
    channels: int,
    sampleRate: int,
    byteRate: int,
    blockAlign: int,
    bitsPerSample: int,
    dataLength: int)

  predicate WavHeaderInRange(w: WavHeader)
  {
    && IsInt32(w.chunkSize) && IsInt32(w.fmtSize) && IsInt16(w.formatTag) && IsInt16(w.channels)
    && IsInt32(w.sampleRate) && IsInt32(w.byteRate) && IsInt16(w.blockAlign) && IsInt16(w.bitsPerSample)
    && IsInt32(w.dataLength)
  }

  function RiffTag(): seq<Byte> { Ascii("RIFF") }
  function WaveFmtTag(): seq<Byte> { Ascii("WAVEfmt ") }
  function DataTag(): seq<Byte> { Ascii("data") }

  /** The average bytes per second, sampleRate * (bits * channels) / 8, computed with
      Int32 products that wrap and a division that truncates toward zero. */
  function ByteRate(sampleRate: int, bitsPerSample: int, channels: int): (rate: int)
    ensures IsInt32(rate)
  {
    var product := Wrap32(sampleRate * Wrap32(bitsPerSample * channels));
    TruncDiv(product, 8)
  }

  /** Without overflow the byte rate is the exact quotient. */
  lemma ByteRateExact(sampleRate: int, bitsPerSample: int, channels: int)
    requires 0 <= sampleRate && 0 <= bitsPerSample * channels
    requires sampleRate * (bitsPerSample * channels) < TWO_31
    ensures ByteRate(sampleRate, bitsPerSample, channels) == sampleRate * (bitsPerSample * channels) / 8
  {
    var frame := bitsPerSample * channels;
    if sampleRate > 0 {
      MulMonotone(frame, 1, sampleRate);
      assert Wrap32(frame) == frame;
    }
  }

  /** The header fields the decoder writes for a clip: the RIFF size is dataLength + 16,
      the fmt chunk is 16 bytes of PCM (format 1), the byte rate is
      sampleRate * (bits * channels) / 8 in Int32 arithmetic, and the block alignment is
      always 4. Channels and bits are cast to short. */
  function WavHeaderOf(clip: SoundClip): (w: WavHeader)
    ensures WavHeaderInRange(w)
  {
    var h := clip.header;
    WavHeader(
      Wrap32(clip.dataLength + 16),
      16,
      1,
      Wrap16(h.channels),
      Wrap32(h.sampleRate),
      ByteRate(h.sampleRate, h.bitsPerSample, h.channels),
      4,
      Wrap16(h.bitsPerSample),
      Wrap32(clip.dataLength))
  }

  /** The 36 bytes of the RIFF header and the fmt chunk. */
  function EncodeFormat(w: WavHeader): (s: seq<Byte>)
    ensures |s| == 36
  {
    RiffTag() + EncodeInt32(w.chunkSize) + WaveFmtTag() + EncodeInt32(w.fmtSize)
    + EncodeInt16(w.formatTag) + EncodeInt16(w.channels) + EncodeInt32(w.sampleRate)
    + EncodeInt32(w.byteRate) + EncodeInt16(w.blockAlign) + EncodeInt16(w.bitsPerSample)
  }

  /** The 44-byte header: the format part, then the data chunk's tag and length. */
  function EncodeWavHeader(w: WavHeader): (s: seq<Byte>)
    ensures |s| == WAV_HEADER_SIZE
  {
    EncodeFormat(w) + DataTag() + EncodeInt32(w.dataLength)
  }

  /** The WAV file written for a clip: the header followed by the payload as read. */
  function WavFile(clip: SoundClip): seq<Byte>
  {
    EncodeWavHeader(WavHeaderOf(clip)) + clip.payload
  }

  /** Reads the 36-byte format part back, with the data length read separately: None
      unless the RIFF and WAVE tags are in place. */
  function ParseFormat(f: seq<Byte>, dataLength: int): Option<WavHeader>
    requires |f| == 36
  {
    if f[0..4] != RiffTag() || f[8..16] != WaveFmtTag() then None
    else Some(WavHeader(
      Int32Of(f[4..8]), Int32Of(f[16..20]), Int16Of(f[20..22]), Int16Of(f[22..24]),
      Int32Of(f[24..28]), Int32Of(f[28..32]), Int16Of(f[32..34]), Int16Of(f[34..36]), dataLength))
  }

  /** Reads a 44-byte header back: None unless the three tags are in place. */
  function ParseWavHeader(s: seq<Byte>): Option<WavHeader>
    requires |s| >= WAV_HEADER_SIZE
  {
    if s[36..40] != DataTag() then None
    else ParseFormat(s[..36], Int32Of(s[40..44]))
  }

  /** Parsing an encoded header gives its fields back. */
  lemma WavHeaderRoundTrip(w: WavHeader)
    requires WavHeaderInRange(w)
    ensures ParseWavHeader(EncodeWavHeader(w)) == Some(w)
  {
    var f := EncodeFormat(w);
    var s := EncodeWavHeader(w);
    FormatFields(w);
    assert s[..36] == f;
    assert s[36..40] == DataTag();
    assert s[40..44] == EncodeInt32(w.dataLength);
    Int32RoundTrip(w.dataLength);
  }

  /** Where each field of the format part lies. */
  lemma FormatFields(w: WavHeader)
    requires WavHeaderInRange(w)
    ensures ParseFormat(EncodeFormat(w), w.dataLength) == Some(w)
  {
    FormatHeadSlices(w);
    FormatKindSlices(w);
    FormatRateSlices(w);
    FormatAlignSlices(w);
    Int32RoundTrip(w.chunkSize);
    Int32RoundTrip(w.fmtSize);
    Int16RoundTrip(w.formatTag);
    Int16RoundTrip(w.channels);
    Int32RoundTrip(w.sampleRate);
    Int32RoundTrip(w.byteRate);
    Int16RoundTrip(w.blockAlign);
    Int16RoundTrip(w.bitsPerSample);
  }

  /** The tags, the RIFF size and the fmt size sit at offsets 0, 4, 8 and 16. */
  lemma FormatHeadSlices(w: WavHeader)
    requires WavHeaderInRange(w)
    ensures var f := EncodeFormat(w);
      && f[0..4] == RiffTag() && f[4..8] == EncodeInt32(w.chunkSize)
      && f[8..16] == WaveFmtTag() && f[16..20] == EncodeInt32(w.fmtSize)
  {
    var f := EncodeFormat(w);
    assert f[0..4] == RiffTag();
    assert f[4..8] == EncodeInt32(w.chunkSize);
    assert f[8..16] == WaveFmtTag();
    assert f[16..20] == EncodeInt32(w.fmtSize);
  }

  /** The format tag and the channel count sit at offsets 20 and 22. */
  lemma FormatKindSlices(w: WavHeader)
    requires WavHeaderInRange(w)
    ensures var f := EncodeFormat(w);
      f[20..22] == EncodeInt16(w.formatTag) && f[22..24] == EncodeInt16(w.channels)
  {
    var f := EncodeFormat(w);
    assert f[20..22] == EncodeInt16(w.formatTag);
    assert f[22..24] == EncodeInt16(w.channels);
  }

  /** The sample rate and the byte rate sit at offsets 24 and 28. */
  lemma FormatRateSlices(w: WavHeader)
    requires WavHeaderInRange(w)
    ensures var f := EncodeFormat(w);
      f[24..28] == EncodeInt32(w.sampleRate) && f[28..32] == EncodeInt32(w.byteRate)
  {
    var f := EncodeFormat(w);
    assert f[24..28] == EncodeInt32(w.sampleRate);
    assert f[28..32] == EncodeInt32(w.byteRate);
  }

  /** The block alignment and the sample width sit at offsets 32 and 34. */
  lemma FormatAlignSlices(w: WavHeader)
    requires WavHeaderInRange(w)
    ensures var f := EncodeFormat(w);
      f[32..34] == EncodeInt16(w.blockAlign) && f[34..36] == EncodeInt16(w.bitsPerSample)
  {
    var f := EncodeFormat(w);
    assert f[32..34] == EncodeInt16(w.blockAlign);
    assert f[34..36] == EncodeInt16(w.bitsPerSample);
  }

  /** The WAV file is the 44-byte header and the whole payload. Its RIFF size field is
      20 less than the canonical file length - 8 when the payload is complete. */
  lemma WavFileLayout(clip: SoundClip)
    requires 0 <= clip.dataLength < TWO_31 - 16
    ensures var wav := WavFile(clip);
      && |wav| == WAV_HEADER_SIZE + |clip.payload|
      && wav[WAV_HEADER_SIZE..] == clip.payload
      && ParseWavHeader(wav[..WAV_HEADER_SIZE]) == Some(WavHeaderOf(clip))
      && WavHeaderOf(clip).chunkSize == clip.dataLength + 16
      && (|clip.payload| == clip.dataLength ==> WavHeaderOf(clip).chunkSize == (|wav| - 8) - 20)
  {
    var wav := WavFile(clip);
    assert wav[..WAV_HEADER_SIZE] == EncodeWavHeader(WavHeaderOf(clip));
    WavHeaderRoundTrip(WavHeaderOf(clip));
  }

  /** A 100-byte stereo 16-bit clip at 22050 Hz: RIFF size 116, byte rate 88200, and a
      144-byte file. */
  lemma WavExample(tag: seq<Byte>, payload: seq<Byte>)
    requires |payload| == 100
    ensures var clip := SoundClip(SoundHeader(tag, 2, 22050, 16, 50), 100, payload);
      && WavHeaderOf(clip).chunkSize == 116
      && WavHeaderOf(clip).byteRate == 88200
      && WavHeaderOf(clip).blockAlign == 4
      && |WavFile(clip)| == 144
  {
  }

  /** The format part spelled out with the values as the decoder computes them: the
      casts of WavHeaderOf leave the written bytes unchanged. */
  lemma FormatAsWritten(clip: SoundClip)
    ensures var h := clip.header;
      EncodeFormat(WavHeaderOf(clip)) ==
        RiffTag() + EncodeInt32(Wrap32(clip.dataLength + 16)) + WaveFmtTag() + EncodeInt32(16)
        + EncodeInt16(1) + EncodeInt16(h.channels) + EncodeInt32(h.sampleRate)
        + EncodeInt32(ByteRate(h.sampleRate, h.bitsPerSample, h.channels)) + EncodeInt16(4)
        + EncodeInt16(h.bitsPerSample)
  {
    var h := clip.header;
    EncodeWrapped(h.channels);
    EncodeWrapped(h.sampleRate);
    EncodeWrapped(h.bitsPerSample);
  }

  /** Writes the RIFF header and the fmt chunk of a clip's WAV file field by field, as
      the decoder's BinaryWriter does: the casts to short happen at the writes. */
  method WriteFormat(clip: SoundClip) returns (bw: BinaryWriter)
    ensures fresh(bw)
    ensures bw.bytes == EncodeFormat(WavHeaderOf(clip))
  {
    var h := clip.header;
    bw := new BinaryWriter();
    var chunkSize := Wrap32(clip.dataLength + 16);
    bw.WriteBytes(RiffTag());
    bw.WriteInt32(chunkSize);
    bw.WriteBytes(WaveFmtTag());
    bw.WriteInt32(16);
    bw.WriteInt16(1);
    bw.WriteInt16(h.channels);
    bw.WriteInt32(h.sampleRate);
    var avgBytesPerSec := ByteRate(h.sampleRate, h.bitsPerSample, h.channels);
    bw.WriteInt32(avgBytesPerSec);
    var blockAlign := 4;
    bw.WriteInt16(blockAlign);
    bw.WriteInt16(h.bitsPerSample);
    FormatAsWritten(clip);
    assert [] + RiffTag() == RiffTag();
  }

  /** Writes a clip's whole WAV file: the format part, the data chunk's tag and
      length, and the payload. */
  method WriteWav(clip: SoundClip) returns (wav: seq<Byte>)
    ensures wav == WavFile(clip)
  {
    var bw := WriteFormat(clip);
    bw.WriteBytes(DataTag());
    bw.WriteInt32(clip.dataLength);
    bw.WriteBytes(clip.payload);
    wav := bw.bytes;
    EncodeWrapped(clip.dataLength);
  }
}
