/*
 * The fields both archive formats share. An archive is an int32 entry
 * count followed by the entries; every entry opens with its stored path
 * and closes with its payload, each written by WriteFileToArchive as an
 * int32 byte count followed by the bytes.
 */
module ArchiveFormat {
  import opened Common
  import opened BinaryFormat

  /** `archive.Write(bytes.Length); archive.Write(bytes)`. */
  function LengthPrefixed(bs: seq<Byte>): (r: seq<Byte>)
    requires |bs| <= Int32Max
    ensures |r| == 4 + |bs|
  {
    Int32Bytes(|bs|) + bs
  }

  /** Where a length-prefixed byte string occurs, ReadInt32 reads its length and ReadBytes then reads it. */
  lemma LengthPrefixedAt(data: seq<Byte>, pos: nat, bs: seq<Byte>)
    requires |bs| <= Int32Max && At(data, pos, LengthPrefixed(bs))
    ensures ReadInt32(data, pos) == Ok(Read(|bs|, pos + 4))
    ensures ReadBytes(data, pos + 4, |bs|) == Ok(Read(bs, pos + 4 + |bs|))
  {
    AtSplit(data, pos, Int32Bytes(|bs|), bs);
    ReadInt32At(data, pos, |bs|);
    ReadBytesAt(data, pos + 4, bs);
  }

  /**
   * The entry count at the head of the archive, as every reader reads it:
   * four bytes, and a negative count is rejected as corrupted.
   */
  function ReadFileCount(data: seq<Byte>): (r: Result<Read<int>>)
    ensures r.Ok? <==> |data| >= 4 && Int32At(data, 0) >= 0
    ensures r.Ok? ==> r.value == Read(Int32At(data, 0), 4)
    ensures |data| >= 4 && Int32At(data, 0) < 0 ==> r == Err(InvalidFileCount(Int32At(data, 0)))
    ensures |data| < 4 ==> r == Err(EndOfStream)
  {
    var n :- ReadInt32(data, 0);
    if n.value < 0 then Err(InvalidFileCount(n.value)) else Ok(n)
  }

  /** The header ArchiveBytes writes is read back as the entry count. */
  lemma ReadFileCountAt(data: seq<Byte>, count: nat)
    requires count <= Int32Max && At(data, 0, Int32Bytes(count))
    ensures ReadFileCount(data) == Ok(Read(count, 4))
  {
    ReadInt32At(data, 0, count);
  }

  /**
   * The stored path: its byte count, rejected unless positive, then that
   * many bytes, or as many as are left before the end of the archive.
   */
  function ReadName(data: seq<Byte>, pos: nat): (r: Result<Read<seq<Byte>>>)
    ensures r.Ok? <==> pos + 4 <= |data| && Int32At(data, pos) > 0
    ensures pos + 4 <= |data| && Int32At(data, pos) <= 0
      ==> r == Err(InvalidNameLength(Int32At(data, pos)))
    ensures r.Ok? ==> (pos + 4 <= r.value.next <= |data|
                       && r.value.value == data[pos + 4..r.value.next]
                       && (r.value.next == pos + 4 + Int32At(data, pos) || r.value.next == |data|))
  {
    var len :- ReadInt32(data, pos);
    if len.value <= 0 then Err(InvalidNameLength(len.value))
    else ReadBytes(data, len.next, len.value)
  }

  /** A non-empty path written with its length is read back whole. */
  lemma ReadNameAt(data: seq<Byte>, pos: nat, name: seq<Byte>)
    requires 0 < |name| <= Int32Max && At(data, pos, LengthPrefixed(name))
    ensures ReadName(data, pos) == Ok(Read(name, pos + 4 + |name|))
  {
    LengthPrefixedAt(data, pos, name);
  }

  /**
   * The payload: its byte count, rejected when negative, then that many
   * bytes, or as many as are left before the end of the archive.
   */
  function ReadPayload(data: seq<Byte>, pos: nat): (r: Result<Read<seq<Byte>>>)
    ensures r.Ok? <==> pos + 4 <= |data| && Int32At(data, pos) >= 0
    ensures pos + 4 <= |data| && Int32At(data, pos) < 0
      ==> r == Err(InvalidPayloadLength(Int32At(data, pos)))
    ensures r.Ok? ==> (pos + 4 <= r.value.next <= |data|
                       && r.value.value == data[pos + 4..r.value.next]
                       && (r.value.next == pos + 4 + Int32At(data, pos) || r.value.next == |data|))
  {
    var len :- ReadInt32(data, pos);
    if len.value < 0 then Err(InvalidPayloadLength(len.value))
    else ReadBytes(data, len.next, len.value)
  }

  /** A payload written with its length is read back whole. */
  lemma ReadPayloadAt(data: seq<Byte>, pos: nat, payload: seq<Byte>)
    requires |payload| <= Int32Max && At(data, pos, LengthPrefixed(payload))
    ensures ReadPayload(data, pos) == Ok(Read(payload, pos + 4 + |payload|))
  {
    LengthPrefixedAt(data, pos, payload);
  }
}
