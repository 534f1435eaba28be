/** The .RSRC archive: the 16-byte header, the descriptor table and the data pass that
    decodes every picture and sound record in table order. */
module Archive {
  import opened Bytes
  import opened Stream
  import Picture
  import Sound

  const ARCHIVE_HEADER_SIZE: nat := 16
  const DESCRIPTOR_SIZE: nat := 16
  const TAG_SIZE: nat := 4

  function Magic(): seq<Byte> { Ascii("rsrc") }
  function ImageTag(): seq<Byte> { Ascii("TCIP") }
  function SoundTag(): seq<Byte> { Ascii(" dns") }

  /** The three header bytes; each is followed by three padding bytes. */
  datatype ArchiveHeader = ArchiveHeader(version1: Byte, version2: Byte, recordCount: Byte)

  /** The kind of a table entry; Unset is the null blockType of an entry left at its default. */
  datatype BlockType = ImageBlock | SoundBlock | Unset

  /** One entry of the record table. `slot` is the 1-based position in the table. */
  datatype Descriptor = Descriptor(blockType: BlockType, recordId: int, startOffset: int, dataSize: int, slot: nat)

  /** `default(RecordHeaderStruct)`: what an entry with an unrecognised tag keeps. */
  function DefaultDescriptor(): Descriptor { Descriptor(Unset, 0, 0, 0, 0) }

  /** What a run produces per record: the decoded picture, or the clip with its WAV file. */
  datatype Output =
    | ImageOutput(slot: nat, recordId: int, picture: Picture.PictureRecord)
    | SoundOutput(slot: nat, recordId: int, clip: Sound.SoundClip, wav: seq<Byte>)

  datatype Status = Completed | NotAnArchive | Aborted(failure: Failure)

  /** The result of a run: the header and table when they were read, the outputs in the
      order they were produced, and how the run ended. */
  datatype Outcome = Outcome(header: Option<ArchiveHeader>, table: seq<Descriptor>, outputs: seq<Output>, status: Status)

  predicate HasMagic(data: seq<Byte>)
  {
    |data| >= TAG_SIZE && data[..TAG_SIZE] == Magic()
  }

  function ParseArchiveHeader(data: seq<Byte>): ArchiveHeader
    requires |data| >= ARCHIVE_HEADER_SIZE
  {
    ArchiveHeader(data[4], data[8], data[12])
  }

  /** The header bytes, with zero padding. */
  function EncodeArchiveHeader(h: ArchiveHeader): (s: seq<Byte>)
    ensures |s| == ARCHIVE_HEADER_SIZE
  {
    Magic() + [h.version1, 0, 0, 0] + [h.version2, 0, 0, 0] + [h.recordCount, 0, 0, 0]
  }

  /** An encoded header carries the magic and parses back to itself. */
  lemma ArchiveHeaderRoundTrip(h: ArchiveHeader, rest: seq<Byte>)
    ensures HasMagic(EncodeArchiveHeader(h) + rest)
    ensures ParseArchiveHeader(EncodeArchiveHeader(h) + rest) == h
  {
    var s := EncodeArchiveHeader(h) + rest;
    assert s[..TAG_SIZE] == Magic();
  }

  function TagType(tag: seq<Byte>): BlockType
  {
    if tag == ImageTag() then ImageBlock
    else if tag == SoundTag() then SoundBlock
    else Unset
  }

  /** The descriptor at position p, entry i of the table, and the position after it: a
      recognised tag is followed by the record id, start offset and data size; any
      other tag is skipped and the entry keeps its default. */
  function DescriptorSpec(data: seq<Byte>, p: nat, i: nat): (r: Result<(Descriptor, nat)>)
    requires p <= |data|
    ensures r.Ok? ==> p <= r.value.1 <= |data|
  {
    var tag := BytesAt(data, p, TAG_SIZE);
    var q := p + |tag|;
    var blockType := TagType(tag);
    if blockType == Unset then Ok((DefaultDescriptor(), q))
    else if q + 12 > |data| then Err(EndOfStream)
    else Ok((Descriptor(blockType, Int32At(data, q), Int32At(data, q + 4), Int32At(data, q + 8), i + 1), q + 12))
  }

  function TagOf(t: BlockType): seq<Byte>
    requires t != Unset
  {
    if t == ImageBlock then ImageTag() else SoundTag()
  }

  /** The 16 bytes of a recognised descriptor. */
  function EncodeDescriptor(d: Descriptor): (s: seq<Byte>)
    requires d.blockType != Unset
    ensures |s| == DESCRIPTOR_SIZE
  {
    TagOf(d.blockType) + EncodeInt32(d.recordId) + EncodeInt32(d.startOffset) + EncodeInt32(d.dataSize)
  }

  /** A recognised descriptor written at position p of entry slot - 1 is read back whole,
      taking 16 bytes. */
  lemma DescriptorRoundTrip(data: seq<Byte>, p: nat, d: Descriptor)
    requires d.blockType != Unset && d.slot >= 1
    requires IsInt32(d.recordId) && IsInt32(d.startOffset) && IsInt32(d.dataSize)
    requires p + DESCRIPTOR_SIZE <= |data| && data[p..p + DESCRIPTOR_SIZE] == EncodeDescriptor(d)
    ensures DescriptorSpec(data, p, d.slot - 1) == Ok((d, p + DESCRIPTOR_SIZE))
  {
    var e := EncodeDescriptor(d);
    assert ImageTag()[0] != SoundTag()[0];
    assert e[..4] == TagOf(d.blockType);
    assert e[4..8] == EncodeInt32(d.recordId);
    assert e[8..12] == EncodeInt32(d.startOffset);
    assert e[12..16] == EncodeInt32(d.dataSize);
    assert BytesAt(data, p, TAG_SIZE) == data[p..p + 4];
    SubSlice(data, p, DESCRIPTOR_SIZE, 0, 4);
    SubSlice(data, p, DESCRIPTOR_SIZE, 4, 8);
    SubSlice(data, p, DESCRIPTOR_SIZE, 8, 12);
    SubSlice(data, p, DESCRIPTOR_SIZE, 12, 16);
    Int32RoundTrip(d.recordId);
    Int32RoundTrip(d.startOffset);
    Int32RoundTrip(d.dataSize);
  }

  lemma SubSlice(data: seq<Byte>, p: nat, n: nat, a: nat, b: nat)
    requires a <= b <= n && p + n <= |data|
    ensures data[p..p + n][a..b] == data[p + a..p + b]
  {
    var inner, direct := data[p..p + n][a..b], data[p + a..p + b];
    assert |inner| == |direct|;
    forall k | 0 <= k < |inner|
      ensures inner[k] == direct[k]
    {
      assert inner[k] == data[p..p + n][a + k] == data[p + a + k];
    }
  }

  /** Entries i..n-1 of the table, read from position p after the entries acc. */
  function TableSpec(data: seq<Byte>, p: nat, n: nat, i: nat, acc: seq<Descriptor>): (r: Result<(seq<Descriptor>, nat)>)
    requires p <= |data| && i <= n
    ensures r.Ok? ==> p <= r.value.1 <= |data|
    decreases n - i
  {
    if i == n then Ok((acc, p))
    else
      match DescriptorSpec(data, p, i)
      case Err(e) => Err(e)
      case Ok((d, q)) => TableSpec(data, q, n, i + 1, acc + [d])
  }

  /** Every entry is either the default or recognised and numbered by its position. */
  predicate WellFormedTable(table: seq<Descriptor>)
  {
    forall k :: 0 <= k < |table| ==>
      table[k] == DefaultDescriptor() || (table[k].blockType != Unset && table[k].slot == k + 1)
  }

  /** The number of recognised entries. */
  function KnownCount(table: seq<Descriptor>): nat
  {
    if table == [] then 0
    else (if table[0].blockType == Unset then 0 else 1) + KnownCount(table[1..])
  }

  /** A descriptor stays within the stream, takes 16 bytes when its tag is recognised and
      4 otherwise (fewer only at the end of the stream), and a recognised one is slot i + 1. */
  lemma DescriptorShape(data: seq<Byte>, p: nat, i: nat)
    requires p <= |data|
    ensures var r := DescriptorSpec(data, p, i);
      r.Ok? ==>
        && r.value.1 <= |data|
        && (r.value.0 == DefaultDescriptor() || (r.value.0.blockType != Unset && r.value.0.slot == i + 1))
        && (p + DESCRIPTOR_SIZE <= |data| ==>
              r.value.1 == p + (if r.value.0.blockType == Unset then TAG_SIZE else DESCRIPTOR_SIZE))
  {
  }

  /** The table has exactly n entries, each the default or numbered by its position, and
      when the stream is long enough it takes 4 bytes per entry plus 12 per recognised one. */
  lemma {:induction false} TableShape(data: seq<Byte>, p: nat, n: nat, i: nat, acc: seq<Descriptor>)
    requires p <= |data| && i <= n && |acc| == i && WellFormedTable(acc)
    ensures var r := TableSpec(data, p, n, i, acc);
      r.Ok? ==>
        && |r.value.0| == n
        && r.value.0[..i] == acc
        && WellFormedTable(r.value.0)
        && p <= r.value.1 <= |data|
        && (p + DESCRIPTOR_SIZE * (n - i) <= |data| ==>
              r.value.1 == p + TAG_SIZE * (n - i) + 12 * KnownCount(r.value.0[i..]))
    decreases n - i
  {
    if i < n {
      DescriptorShape(data, p, i);
      var r := DescriptorSpec(data, p, i);
      if r.Ok? {
        var (d, q) := r.value;
        var acc' := acc + [d];
        assert WellFormedTable(acc') by {
          forall k | 0 <= k < |acc'|
            ensures acc'[k] == DefaultDescriptor() || (acc'[k].blockType != Unset && acc'[k].slot == k + 1)
          {
            if k < i { assert acc'[k] == acc[k]; }
          }
        }
        TableShape(data, q, n, i + 1, acc');
        var t := TableSpec(data, q, n, i + 1, acc');
        if t.Ok? {
          var table := t.value.0;
          assert table[..i] == table[..i + 1][..i] == acc'[..i] == acc;
          assert table[i..][1..] == table[i + 1..];
          assert table[i..][0] == table[i] == acc'[i] == d;
          if p + DESCRIPTOR_SIZE * (n - i) <= |data| {
            assert q + DESCRIPTOR_SIZE * (n - (i + 1)) <= |data|;
          }
        }
      }
    }
  }

  /** What record d decodes to, read from position p, and the position after it; an
      entry that is neither a picture nor a sound reads nothing. */
  function RecordSpec(data: seq<Byte>, p: nat, d: Descriptor): (r: Result<(Option<Output>, nat)>)
    requires p <= |data|
    ensures r.Ok? ==> p <= r.value.1 <= |data|
  {
    match d.blockType
    case ImageBlock =>
      (match Picture.PictureSpec(data, p, d.dataSize)
       case Err(e) => Err(e)
       case Ok((pic, q)) => Ok((Some(ImageOutput(d.slot, d.recordId, pic)), q)))
    case SoundBlock =>
      (match Sound.SoundSpec(data, p, d.dataSize)
       case Err(e) => Err(e)
       case Ok((clip, q)) => Ok((Some(SoundOutput(d.slot, d.recordId, clip, Sound.WavFile(clip))), q)))
    case Unset => Ok((None, p))
  }

  lemma RecordEndsInStream(data: seq<Byte>, p: nat, d: Descriptor)
    requires p <= |data|
    ensures RecordSpec(data, p, d).Ok? ==> p <= RecordSpec(data, p, d).value.1 <= |data|
    ensures RecordSpec(data, p, d).Ok? ==> (RecordSpec(data, p, d).value.0.None? <==> d.blockType == Unset)
  {
    match d.blockType
    case ImageBlock => Picture.PictureBytesConsumed(data, p, d.dataSize);
    case SoundBlock => Sound.SoundBytesConsumed(data, p, d.dataSize);
    case Unset =>
  }

  function OptionToSeq<T>(o: Option<T>): seq<T>
  {
    if o.Some? then [o.value] else []
  }

  /** Records j.. of the table, decoded one after the other from position p: their
      outputs in order, and how the pass ends. */
  function DataPass(data: seq<Byte>, p: nat, table: seq<Descriptor>, j: nat): (r: (seq<Output>, Status))
    requires p <= |data| && j <= |table|
    ensures r.1 == Completed || r.1.Aborted?
    ensures |r.0| <= |table| - j
    decreases |table| - j
  {
    if j == |table| then ([], Completed)
    else
      match RecordSpec(data, p, table[j])
      case Err(e) => ([], Aborted(e))
      case Ok((o, q)) =>
        var (outputs, status) := DataPass(data, q, table, j + 1);
        (OptionToSeq(o) + outputs, status)
  }

  /** A whole run over the archive bytes. */
  function ArchiveSpec(data: seq<Byte>): (o: Outcome)
    ensures o.status == NotAnArchive <==> !HasMagic(data)
    ensures |o.outputs| <= |o.table|
  {
    if !HasMagic(data) then Outcome(None, [], [], NotAnArchive)
    else if |data| < ARCHIVE_HEADER_SIZE then Outcome(None, [], [], Aborted(EndOfStream))
    else
      var h := ParseArchiveHeader(data);
      match TableSpec(data, ARCHIVE_HEADER_SIZE, h.recordCount as nat, 0, [])
      case Err(e) => Outcome(Some(h), [], [], Aborted(e))
      case Ok((table, p)) =>
        var (outputs, status) := DataPass(data, p, table, 0);
        Outcome(Some(h), table, outputs, status)
  }

  /** The recognised entries, in table order. */
  function Known(table: seq<Descriptor>): (known: seq<Descriptor>)
    ensures |known| == KnownCount(table)
    ensures forall d :: d in known ==> d in table && d.blockType != Unset
  {
    if table == [] then []
    else (if table[0].blockType == Unset then [] else [table[0]]) + Known(table[1..])
  }

  /** Output o was produced for descriptor d: same slot, id and kind. */
  predicate ProducedFor(o: Output, d: Descriptor)
  {
    && o.slot == d.slot && o.recordId == d.recordId
    && (o.ImageOutput? <==> d.blockType == ImageBlock)
    && (o.SoundOutput? <==> d.blockType == SoundBlock)
  }

  /** The outputs os are, one by one, the outputs of the first |os| descriptors of ds. */
  predicate OutputsFollow(os: seq<Output>, ds: seq<Descriptor>)
  {
    |os| <= |ds| && forall k :: 0 <= k < |os| ==> ProducedFor(os[k], ds[k])
  }

  /** The recognised entries from j on: entry j, when it is recognised, then those after it. */
  lemma KnownStep(table: seq<Descriptor>, j: nat)
    requires j < |table|
    ensures Known(table[j..]) == (if table[j].blockType == Unset then [] else [table[j]]) + Known(table[j + 1..])
    ensures KnownCount(table[j..]) == (if table[j].blockType == Unset then 0 else 1) + KnownCount(table[j + 1..])
  {
    assert table[j..][0] == table[j];
    assert table[j..][1..] == table[j + 1..];
  }

  /** A record that decodes yields an output exactly when its entry is recognised, and
      that output carries the entry's slot, id and kind. */
  lemma RecordOutput(data: seq<Byte>, p: nat, d: Descriptor)
    requires p <= |data|
    ensures var r := RecordSpec(data, p, d);
      r.Ok? ==> (r.value.0.None? <==> d.blockType == Unset) && (r.value.0.Some? ==> ProducedFor(r.value.0.value, d))
  {
  }

  lemma FollowsCons(o: Output, tail: seq<Output>, d: Descriptor, rest: seq<Descriptor>)
    requires ProducedFor(o, d) && OutputsFollow(tail, rest)
    ensures OutputsFollow([o] + tail, [d] + rest)
  {
    var os, ds := [o] + tail, [d] + rest;
    forall k | 0 <= k < |os|
      ensures ProducedFor(os[k], ds[k])
    {
      if k > 0 { assert os[k] == tail[k - 1] && ds[k] == rest[k - 1]; }
    }
  }

  /** The data pass produces one output per recognised entry, in table order, and stops at
      the first record that fails; it produces all of them exactly when it completes. */
  lemma {:induction false} DataPassFollowsTable(data: seq<Byte>, p: nat, table: seq<Descriptor>, j: nat)
    requires p <= |data| && j <= |table|
    ensures var (outputs, status) := DataPass(data, p, table, j);
      && OutputsFollow(outputs, Known(table[j..]))
      && (status == Completed <==> |outputs| == KnownCount(table[j..]))
      && (status == Completed || status.Aborted?)
    decreases |table| - j
  {
    if j == |table| {
      assert table[j..] == [];
    } else {
      var d := table[j];
      KnownStep(table, j);
      RecordOutput(data, p, d);
      var r := RecordSpec(data, p, d);
      if r.Ok? {
        var (o, q) := r.value;
        DataPassFollowsTable(data, q, table, j + 1);
        if o.Some? {
          FollowsCons(o.value, DataPass(data, q, table, j + 1).0, d, Known(table[j + 1..]));
        }
      }
    }
  }

  /** Runs on anything but the "rsrc" magic stop at once with nothing read; every other
      run reads the header, and a run that reads a table reads recordCount entries,
      numbered 1.. by position, and produces one output per recognised entry in table order. */
  lemma ArchiveShape(data: seq<Byte>)
    ensures var o := ArchiveSpec(data);
      && (o.status == NotAnArchive <==> !HasMagic(data))
      && (o.status == NotAnArchive ==> o.header == None && o.table == [] && o.outputs == [])
      && (o.header.Some? <==> HasMagic(data) && |data| >= ARCHIVE_HEADER_SIZE)
      && (o.header.Some? ==> o.header.value == ParseArchiveHeader(data))
      && (o.table != [] ==> |o.table| == o.header.value.recordCount as nat && WellFormedTable(o.table))
      && OutputsFollow(o.outputs, Known(o.table))
      && (o.status == Completed ==> |o.outputs| == KnownCount(o.table))
  {
    if HasMagic(data) && |data| >= ARCHIVE_HEADER_SIZE {
      var h := ParseArchiveHeader(data);
      TableShape(data, ARCHIVE_HEADER_SIZE, h.recordCount as nat, 0, []);
      var t := TableSpec(data, ARCHIVE_HEADER_SIZE, h.recordCount as nat, 0, []);
      if t.Ok? {
        var (table, p) := t.value;
        DataPassFollowsTable(data, p, table, 0);
        assert table[0..] == table;
      }
    }
  }

  /** Every output names a slot of the table: an entry number between 1 and recordCount. */
  lemma OutputSlotsInTable(data: seq<Byte>)
    ensures var o := ArchiveSpec(data);
      forall k :: 0 <= k < |o.outputs| ==> 1 <= o.outputs[k].slot <= |o.table|
  {
    ArchiveShape(data);
    var o := ArchiveSpec(data);
    forall k | 0 <= k < |o.outputs|
      ensures 1 <= o.outputs[k].slot <= |o.table|
    {
      var d := Known(o.table)[k];
      assert d in Known(o.table);
      var i :| 0 <= i < |o.table| && o.table[i] == d;
      assert o.table[i] != DefaultDescriptor();
    }
  }

  /** An archive whose header declares no records completes with nothing more read. */
  lemma EmptyArchive(data: seq<Byte>)
    requires HasMagic(data) && |data| >= ARCHIVE_HEADER_SIZE && data[12] == 0
    ensures ArchiveSpec(data) == Outcome(Some(ParseArchiveHeader(data)), [], [], Completed)
  {
  }

  /** The start offset of a descriptor is never used: records are read one after another. */
  lemma {:induction false} StartOffsetIgnored(data: seq<Byte>, p: nat, table: seq<Descriptor>, other: seq<Descriptor>, j: nat)
    requires p <= |data| && j <= |table| == |other|
    requires forall k :: 0 <= k < |table| ==> other[k] == table[k].(startOffset := other[k].startOffset)
    ensures DataPass(data, p, table, j) == DataPass(data, p, other, j)
    decreases |table| - j
  {
    if j < |table| {
      RecordOffsetIgnored(data, p, table[j], other[j].startOffset);
      DataPassStep(data, p, table, j);
      DataPassStep(data, p, other, j);
      var r := RecordSpec(data, p, table[j]);
      if r.Ok? {
        StartOffsetIgnored(data, r.value.1, table, other, j + 1);
      }
    }
  }

  lemma RecordOffsetIgnored(data: seq<Byte>, p: nat, d: Descriptor, startOffset: int)
    requires p <= |data|
    ensures RecordSpec(data, p, d) == RecordSpec(data, p, d.(startOffset := startOffset))
  {
  }

  /** Reads a header byte and its three padding bytes. */
  method ReadPaddedByte(rd: BinaryReader) returns (r: Option<Byte>)
    requires rd.Valid()
    modifies rd
    ensures rd.Valid()
    ensures old(rd.pos) + 4 <= |rd.data| ==> r == Some(rd.data[old(rd.pos)]) && rd.pos == old(rd.pos) + 4
    ensures old(rd.pos) + 4 > |rd.data| ==> r == None
  {
    r := rd.ReadByte();
    var i := 0;
    while i < 3
      invariant 0 <= i <= 3 && rd.Valid()
      invariant old(rd.pos) + 1 + i <= |rd.data| ==> r == Some(rd.data[old(rd.pos)]) && rd.pos == old(rd.pos) + 1 + i
      invariant old(rd.pos) + 1 + i > |rd.data| ==> r == None
    {
      var pad := rd.ReadByte();
      if pad.None? { r := None; }
      i := i + 1;
    }
  }

  /** Reads entry i of the table: the tag, and for a recognised tag the three Int32
      fields; an unrecognised entry is the default one. */
  method ReadDescriptor(rd: BinaryReader, i: nat) returns (r: Result<Descriptor>)
    requires rd.Valid()
    modifies rd
    ensures rd.Valid()
    ensures r == Value(DescriptorSpec(rd.data, old(rd.pos), i))
    ensures r.Ok? ==> rd.pos == DescriptorSpec(rd.data, old(rd.pos), i).value.1
  {
    var chunkType := rd.ReadBytes(TAG_SIZE);
    var blockType := TagType(chunkType);
    if blockType == Unset {
      return Ok(DefaultDescriptor());
    }
    var recordId := rd.ReadInt32();
    if recordId.None? { return Err(EndOfStream); }
    var startOffset := rd.ReadInt32();
    if startOffset.None? { return Err(EndOfStream); }
    var dataSize := rd.ReadInt32();
    if dataSize.None? { return Err(EndOfStream); }
    r := Ok(Descriptor(blockType, recordId.value, startOffset.value, dataSize.value, i + 1));
  }

  /** Reads the descriptor table into a fresh array of recordCount default entries; an
      entry is stored only when its tag is recognised. */
  method ReadTable(rd: BinaryReader, n: nat) returns (r: Result<seq<Descriptor>>)
    requires rd.Valid()
    modifies rd
    ensures rd.Valid()
    ensures r == Value(TableSpec(rd.data, old(rd.pos), n, 0, []))
    ensures r.Ok? ==> rd.pos == TableSpec(rd.data, old(rd.pos), n, 0, []).value.1
  {
    var recHeads := new Descriptor[n](_ => DefaultDescriptor());
    var i := 0;
    while i < n
      invariant 0 <= i <= n && rd.Valid()
      invariant TableSpec(rd.data, rd.pos, n, i, recHeads[..i]) == TableSpec(rd.data, old(rd.pos), n, 0, [])
      invariant forall k :: i <= k < n ==> recHeads[k] == DefaultDescriptor()
    {
      var recHead := ReadDescriptor(rd, i);
      if recHead.Err? {
        return Err(recHead.error);
      }
      if recHead.value.blockType != Unset {
        recHeads[i] := recHead.value;
      }
      assert recHeads[..i + 1] == recHeads[..i] + [recHead.value];
      i := i + 1;
    }
    assert recHeads[..i] == recHeads[..];
    r := Ok(recHeads[..]);
  }

  /** Decodes one record at the reader's position, as the data pass's branch for its type. */
  method DecodeRecord(rd: BinaryReader, d: Descriptor) returns (r: Result<Option<Output>>)
    requires rd.Valid()
    modifies rd
    ensures rd.Valid()
    ensures r == Value(RecordSpec(rd.data, old(rd.pos), d))
    ensures r.Ok? ==> rd.pos == RecordSpec(rd.data, old(rd.pos), d).value.1
  {
    if d.blockType == ImageBlock {
      var picture := Picture.DecodePicture(rd, d.dataSize);
      if picture.Err? { return Err(picture.error); }
      r := Ok(Some(ImageOutput(d.slot, d.recordId, picture.value)));
    } else if d.blockType == SoundBlock {
      var clip := Sound.DecodeSound(rd, d.dataSize);
      if clip.Err? { return Err(clip.error); }
      var wav := Sound.WriteWav(clip.value);
      r := Ok(Some(SoundOutput(d.slot, d.recordId, clip.value, wav)));
    } else {
      r := Ok(None);
    }
  }

  /** A run of the decoder over the archive bytes: the magic, the header, the table and
      then every record in table order. */
  method DecodeArchive(data: seq<Byte>) returns (o: Outcome)
    ensures o == ArchiveSpec(data)
  {
    var rd := new BinaryReader(data);
    var headerCode := rd.ReadBytes(TAG_SIZE);
    if headerCode != Magic() {
      return Outcome(None, [], [], NotAnArchive);
    }
    assert data[..TAG_SIZE] == headerCode;
    var version1 := ReadPaddedByte(rd);
    var version2 := ReadPaddedByte(rd);
    var numRecords := ReadPaddedByte(rd);
    if version1.None? || version2.None? || numRecords.None? {
      return Outcome(None, [], [], Aborted(EndOfStream));
    }
    var header := ArchiveHeader(version1.value, version2.value, numRecords.value);
    assert header == ParseArchiveHeader(data);
    var table := ReadTable(rd, numRecords.value as nat);
    if table.Err? {
      return Outcome(Some(header), [], [], Aborted(table.error));
    }
    var recHeads := table.value;
    var outputs, status := RunDataPass(rd, recHeads);
    o := Outcome(Some(header), recHeads, outputs, status);
  }

  /** The data pass: every record of the table in order, from the reader's position. */
  method RunDataPass(rd: BinaryReader, recHeads: seq<Descriptor>) returns (outputs: seq<Output>, status: Status)
    requires rd.Valid()
    modifies rd
    ensures (outputs, status) == DataPass(rd.data, old(rd.pos), recHeads, 0)
  {
    ghost var start := rd.pos;
    outputs := [];
    var j := 0;
    while j < |recHeads|
      invariant 0 <= j <= |recHeads| && rd.Valid()
      invariant outputs + DataPass(rd.data, rd.pos, recHeads, j).0 == DataPass(rd.data, start, recHeads, 0).0
      invariant DataPass(rd.data, rd.pos, recHeads, j).1 == DataPass(rd.data, start, recHeads, 0).1
    {
      var stop;
      outputs, stop := DecodeNext(rd, recHeads, j, outputs);
      if stop.Some? {
        return outputs, stop.value;
      }
      j := j + 1;
    }
    assert outputs + [] == outputs;
    status := Completed;
  }

  /** Decodes record j and appends its output; stop is the pass's final status when
      the record fails. */
  method DecodeNext(rd: BinaryReader, recHeads: seq<Descriptor>, j: nat, outputs: seq<Output>)
    returns (outputs': seq<Output>, stop: Option<Status>)
    requires rd.Valid() && j < |recHeads|
    modifies rd
    ensures rd.Valid()
    ensures stop.None? ==>
      && outputs' + DataPass(rd.data, rd.pos, recHeads, j + 1).0 == outputs + DataPass(rd.data, old(rd.pos), recHeads, j).0
      && DataPass(rd.data, rd.pos, recHeads, j + 1).1 == DataPass(rd.data, old(rd.pos), recHeads, j).1
    ensures stop.Some? ==>
      && outputs' == outputs + DataPass(rd.data, old(rd.pos), recHeads, j).0
      && stop.value == DataPass(rd.data, old(rd.pos), recHeads, j).1
  {
    ghost var p := rd.pos;
    var output := DecodeRecord(rd, recHeads[j]);
    DataPassStep(rd.data, p, recHeads, j);
    if output.Err? {
      assert outputs + [] == outputs;
      return outputs, Some(Aborted(output.error));
    }
    outputs' := outputs + OptionToSeq(output.value);
    stop := None;
  }

  /** One step of the data pass. */
  lemma DataPassStep(data: seq<Byte>, p: nat, table: seq<Descriptor>, j: nat)
    requires p <= |data| && j < |table|
    ensures var r := RecordSpec(data, p, table[j]);
      && (r.Err? ==> DataPass(data, p, table, j) == ([], Aborted(r.error)))
      && (r.Ok? ==>
            var rest := DataPass(data, r.value.1, table, j + 1);
            DataPass(data, p, table, j) == (OptionToSeq(r.value.0) + rest.0, rest.1))
  {
  }
}
