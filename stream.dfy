/** The archive as an in-memory byte sequence read through a BinaryReader cursor,
    and the ways a run of the decoder can stop early. */
module Stream {
  import opened Bytes

  datatype Option<+T> = None | Some(value: T)

  /** Why a run of the decoder stops before the end of the record table. In the source
      the first two are uncaught exceptions that end the program, the third a loop that
      never exits; the fourth marks inputs whose behaviour this model does not cover. */
  datatype Failure =
    | EndOfStream      // a ReadByte/ReadInt32/ReadInt16 past the end, or a short ReadBytes then indexed
    | NegativeCount    // ReadBytes with a negative count
    | NeverTerminates  // the width-padding loop for an odd width at a depth other than 8 or 16
    | OutsideModel     // negative image dimensions, or a pixel count that wraps around 2^32

  datatype Result<+T> = Ok(value: T) | Err(error: Failure)

  /** A parse result paired with the cursor position after it. */
  function Value<T>(r: Result<(T, nat)>): Result<T>
  {
    match r
    case Ok((v, _)) => Ok(v)
    case Err(e) => Err(e)
  }

  /** ReadInt32 at position p of the stream. */
  function Int32At(data: seq<Byte>, p: nat): (r: int)
    requires p + 4 <= |data|
    ensures IsInt32(r)
  {
    Int32Of(data[p..p + 4])
  }

  /** ReadInt16 at position p of the stream. */
  function Int16At(data: seq<Byte>, p: nat): (r: int)
    requires p + 2 <= |data|
    ensures IsInt16(r)
  {
    Int16Of(data[p..p + 2])
  }

  /** ReadBytes(count) (and ReadChars on ASCII text) at position p: at most count
      bytes, fewer when the stream ends first. */
  function BytesAt(data: seq<Byte>, p: nat, count: nat): (r: seq<Byte>)
    requires p <= |data|
    ensures |r| == Min(count, |data| - p)
    ensures forall i :: 0 <= i < |r| ==> r[i] == data[p + i]
  {
    data[p..Min(p + count, |data|)]
  }

  /** A reader over a fixed byte sequence; `pos` is the stream position. */
  class BinaryReader {
    const data: seq<Byte>
    var pos: nat

    ghost predicate Valid()
      reads this
    {
      pos <= |data|
    }

    constructor (input: seq<Byte>)
      ensures Valid() && data == input && pos == 0
    {
      data := input;
      pos := 0;
    }

    /** ReadByte: the next byte, or None (EndOfStreamException) at the end. */
    method ReadByte() returns (r: Option<Byte>)
      requires Valid()
      modifies this
      ensures Valid()
      ensures old(pos) < |data| ==> r == Some(data[old(pos)]) && pos == old(pos) + 1
      ensures old(pos) >= |data| ==> r == None && pos == old(pos)
    {
      if pos < |data| {
        r := Some(data[pos]);
        pos := pos + 1;
      } else {
        r := None;
      }
    }

    /** ReadBytes: up to count bytes; a short result at the end of the stream. */
    method ReadBytes(count: nat) returns (r: seq<Byte>)
      requires Valid()
      modifies this
      ensures Valid()
      ensures r == BytesAt(data, old(pos), count) && pos == old(pos) + |r|
    {
      var end := Min(pos + count, |data|);
      r := data[pos..end];
      pos := end;
    }

    /** ReadInt32: four bytes, little-endian two's complement. */
    method ReadInt32() returns (r: Option<int>)
      requires Valid()
      modifies this
      ensures Valid()
      ensures old(pos) + 4 <= |data| ==> r == Some(Int32At(data, old(pos))) && pos == old(pos) + 4
      ensures old(pos) + 4 > |data| ==> r == None && pos == old(pos)
    {
      if pos + 4 <= |data| {
        r := Some(Int32Of(data[pos..pos + 4]));
        pos := pos + 4;
      } else {
        r := None;
      }
    }

    /** ReadInt16: two bytes, little-endian two's complement. */
    method ReadInt16() returns (r: Option<int>)
      requires Valid()
      modifies this
      ensures Valid()
      ensures old(pos) + 2 <= |data| ==> r == Some(Int16At(data, old(pos))) && pos == old(pos) + 2
      ensures old(pos) + 2 > |data| ==> r == None && pos == old(pos)
    {
      if pos + 2 <= |data| {
        r := Some(Int16Of(data[pos..pos + 2]));
        pos := pos + 2;
      } else {
        r := None;
      }
    }
  }

  /** A writer that appends to an in-memory byte sequence, as BinaryWriter appends to
      its output file. */
  class BinaryWriter {
    var bytes: seq<Byte>

    constructor ()
      ensures bytes == []
    {
      bytes := [];
    }

    /** Write(Int32): four bytes, little-endian. */
    method WriteInt32(v: int)
      modifies this
      ensures bytes == old(bytes) + EncodeInt32(v)
    {
      bytes := bytes + EncodeInt32(v);
    }

    /** Write(short): the low 16 bits, little-endian. */
    method WriteInt16(v: int)
      modifies this
      ensures bytes == old(bytes) + EncodeInt16(v)
    {
      bytes := bytes + EncodeInt16(v);
    }

    /** Write(byte[]) and Write(char[]) on ASCII text: the bytes as they are. */
    method WriteBytes(s: seq<Byte>)
      modifies this
      ensures bytes == old(bytes) + s
    {
      bytes := bytes + s;
    }
  }
}
