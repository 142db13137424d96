/*
 * The Huffman archive: what CompressFilesAsync and CompressFolderAsync
 * write, and how GetFileListAsync, DecompressAllAsync and
 * ExtractSingleFileAsync read it back. Each entry is the stored path, the
 * original size, the frequency table as (byte, int32 count) records in
 * dictionary order, and the packed codes. Writing is a function from the
 * entries to the archive bytes; each reading loop is a method that advances
 * a position through the bytes and is proved equal to a recursive reader.
 */
module HuffmanArchive {
  import opened Common
  import opened BitPacker
  import opened Frequency
  import opened Huffman
  import opened BinaryFormat
  import opened ArchiveNames
  import opened ArchiveFormat

  /** One entry: the path bytes, the input length, the frequency table, the packed codes. */
  datatype Entry = Entry(name: seq<Byte>, originalSize: int, freq: seq<(Byte, int)>, packed: seq<Byte>)

  /** Every count of the table fits the int32 it is written as. */
  predicate CountsFit(freq: seq<(Byte, int)>) {
    |freq| <= Int32Max && forall i :: 0 <= i < |freq| ==> IsInt32(freq[i].1)
  }

  /** Every length and count of the entry fits its int32 field, and the path is not empty. */
  predicate Writable(e: Entry) {
    0 < |e.name| <= Int32Max && IsInt32(e.originalSize) && CountsFit(e.freq) && |e.packed| <= Int32Max
  }

  predicate AllWritable(es: seq<Entry>) {
    forall i :: 0 <= i < |es| ==> Writable(es[i])
  }

  /*
   * Compression.
   */

  /**
   * The entry made of one input file: BuildFrequencyTable, BuildHuffmanTree
   * (which throws on an empty file), BuildEncodingTable, EncodeData and
   * PackBits.
   */
  function CompressEntry(name: seq<Byte>, input: seq<Byte>): (r: Result<Entry>)
    ensures r.Ok? <==> input != []
    ensures r.Ok? ==> r.value.name == name && r.value.originalSize == |input| && r.value.freq == FrequencyTable(input)
  {
    var freq := FrequencyTable(input);
    var root :- HuffmanTree(freq);
    assert input != [] by {
      assert Keys(freq)[0] in input;
    }
    TableEncodes(input);
    var table := CodeTable(root, "");
    Ok(Entry(name, |input|, freq, Pack(Encode(input, table))))
  }

  /** The loop body of CompressFilesAsync for one file: the entry is named by the path's base name. */
  method CompressFile(path: seq<Byte>, input: seq<Byte>) returns (r: Result<Entry>)
    ensures r == CompressEntry(BaseName(path), input)
  {
    var name := BaseName(path);
    var freq := FrequencyTable(input);
    var root := BuildHuffmanTree(freq);
    if root.Err? {
      return Err(root.error);
    }
    assert input != [] by {
      assert Keys(freq)[0] in input;
    }
    var table := BuildEncodingTable(root.value);
    TableEncodes(input);
    var bits := Encode(input, table);
    var packed := PackBits(bits);
    return Ok(Entry(name, |input|, freq, packed));
  }

  /**
   * The entries of the (stored name, contents) pairs, in input order; the
   * first empty file aborts the whole archive with the empty-queue error of
   * its tree.
   */
  function CompressAll(files: seq<(seq<Byte>, seq<Byte>)>): (r: Result<seq<Entry>>)
    ensures r.Err? ==> r.error == QueueEmpty
  {
    if files == [] then Ok([])
    else
      var e :- CompressEntry(files[0].0, files[0].1);
      var rest :- CompressAll(files[1..]);
      Ok([e] + rest)
  }

  /** An empty file anywhere aborts the archive. */
  lemma {:induction false} EmptyFileAborts(files: seq<(seq<Byte>, seq<Byte>)>, i: nat)
    requires i < |files| && files[i].1 == []
    ensures CompressAll(files).Err?
    decreases i
  {
    if i == 0 {
      assert CompressEntry(files[0].0, files[0].1).Err?;
    } else {
      assert files[1..][i - 1] == files[i];
      EmptyFileAborts(files[1..], i - 1);
    }
  }

  /** With no empty file every file compresses. */
  lemma {:induction false} NonEmptyFilesCompress(files: seq<(seq<Byte>, seq<Byte>)>)
    requires forall i :: 0 <= i < |files| ==> files[i].1 != []
    ensures CompressAll(files).Ok?
  {
    if files != [] {
      assert files[0].1 != [];
      NonEmptyFilesCompress(files[1..]);
    }
  }

  /** Every file compresses, and so the archive is made, exactly when no file is empty. */
  lemma CompressAllSucceeds(files: seq<(seq<Byte>, seq<Byte>)>)
    ensures CompressAll(files).Ok? <==> forall i :: 0 <= i < |files| ==> files[i].1 != []
  {
    if i :| 0 <= i < |files| && files[i].1 == [] {
      EmptyFileAborts(files, i);
    } else {
      NonEmptyFilesCompress(files);
    }
  }

  /**
   * The compression loop of CompressFilesAsync over the picked (path, contents)
   * pairs: one entry per file, in order, named by the path's base name.
   */
  method CompressFiles(files: seq<(seq<Byte>, seq<Byte>)>) returns (r: Result<seq<Entry>>)
    ensures r == CompressAll(BaseNamed(files))
  {
    ghost var named := BaseNamed(files);
    var entries: seq<Entry> := [];
    var i := 0;
    assert named[i..] == named;
    PrependNothing(CompressAll(named));
    while i < |files|
      invariant 0 <= i <= |files|
      invariant CompressAll(named) == Prepend(entries, CompressAll(named[i..]))
    {
      var e := CompressFile(files[i].0, files[i].1);
      CompressAllStep(named, i);
      if e.Err? {
        return Err(e.error);
      }
      PrependTwice(entries, [e.value], CompressAll(named[i + 1..]));
      entries := entries + [e.value];
      i := i + 1;
    }
    assert CompressAll(named[i..]) == Ok([]);
    assert entries + [] == entries;
    return Ok(entries);
  }

  /** The files from `i` on: the entry of file `i` in front of the entries of the rest. */
  lemma CompressAllStep(files: seq<(seq<Byte>, seq<Byte>)>, i: nat)
    requires i < |files|
    ensures var e := CompressEntry(files[i].0, files[i].1);
      && (e.Err? ==> CompressAll(files[i..]) == Err(e.error))
      && (e.Ok? ==> CompressAll(files[i..]) == Prepend([e.value], CompressAll(files[i + 1..])))
  {
    assert files[i..][1..] == files[i + 1..];
  }

  /*
   * Writing: WriteFileToArchive, after the int32 entry count.
   */

  /** The table records: the byte, then its count as an int32. */
  function RecordBytes(freq: seq<(Byte, int)>): (bs: seq<Byte>)
    requires CountsFit(freq)
    ensures |bs| == 5 * |freq|
  {
    if freq == [] then []
    else [freq[0].0] + (Int32Bytes(freq[0].1) + RecordBytes(freq[1..]))
  }

  /** The record count, then the records. */
  function TableBytes(freq: seq<(Byte, int)>): (bs: seq<Byte>)
    requires CountsFit(freq)
    ensures |bs| == 4 + 5 * |freq|
  {
    Int32Bytes(|freq|) + RecordBytes(freq)
  }

  /** WriteFileToArchive: path, original size, table, payload. */
  function EntryBytes(e: Entry): (bs: seq<Byte>)
    requires Writable(e)
    ensures |bs| == 16 + |e.name| + 5 * |e.freq| + |e.packed|
  {
    LengthPrefixed(e.name) + (Int32Bytes(e.originalSize) + (TableBytes(e.freq) + LengthPrefixed(e.packed)))
  }

  /** The entries, one after the other, each at least its four length fields long. */
  function EntriesBytes(es: seq<Entry>): (bs: seq<Byte>)
    requires AllWritable(es)
    ensures |bs| >= 16 * |es|
  {
    if es == [] then [] else EntryBytes(es[0]) + EntriesBytes(es[1..])
  }

  /** The whole archive: the entry count, then every entry in order. */
  function ArchiveBytes(es: seq<Entry>): (bs: seq<Byte>)
    requires AllWritable(es) && |es| <= Int32Max
    ensures |bs| >= 4 + 16 * |es| && bs[..4] == Int32Bytes(|es|)
  {
    Int32Bytes(|es|) + EntriesBytes(es)
  }

  /*
   * Reading.
   */

  /**
   * The table made of the first `n` records starting at `pos`, each a byte
   * and an int32 count stored in turn with `freq[sym] = count`: a repeated
   * byte keeps its place and takes the new count.
   */
  function RecordsTable(data: seq<Byte>, pos: nat, n: nat): seq<(Byte, int)>
    requires n == 0 || pos + 5 * n <= |data|
  {
    if n == 0 then []
    else
      var p := pos + 5 * (n - 1);
      Set(RecordsTable(data, pos, n - 1), data[p], Int32At(data, p + 1))
  }

  /** The table read from `n` records has at most `n` pairs, and at least one when there is a record. */
  lemma {:induction false} RecordsTableSize(data: seq<Byte>, pos: nat, n: nat)
    requires n == 0 || pos + 5 * n <= |data|
    ensures |RecordsTable(data, pos, n)| <= n && (n > 0 ==> RecordsTable(data, pos, n) != [])
  {
    if n > 0 {
      RecordsTableSize(data, pos, n - 1);
    }
  }

  /** The table read from records holds each byte once, however often the records repeat it. */
  lemma {:induction false} RecordsTableDistinct(data: seq<Byte>, pos: nat, n: nat)
    requires n == 0 || pos + 5 * n <= |data|
    ensures NoDuplicates(Keys(RecordsTable(data, pos, n)))
  {
    if n > 0 {
      var p := pos + 5 * (n - 1);
      var t, k, v := RecordsTable(data, pos, n - 1), data[p], Int32At(data, p + 1);
      assert RecordsTable(data, pos, n) == Set(t, k, v);
      RecordsTableDistinct(data, pos, n - 1);
      SetDistinct(t, k, v);
    }
  }

  /**
   * The record loop: `count` times a byte and an int32, each stored in the
   * dictionary. A count of zero or less reads nothing; otherwise either all
   * `count` records are there or the read runs past the end.
   */
  function ReadRecords(data: seq<Byte>, pos: nat, count: int): (r: Result<Read<seq<(Byte, int)>>>)
    ensures r.Ok? ==> r.value.next == pos + 5 * (if count <= 0 then 0 else count)
    ensures r.Ok? && count > 0 ==> r.value.next <= |data|
    ensures count > 0 && pos + 5 * count > |data| ==> r == Err(EndOfStream)
  {
    var end :- RecordsEnd(data, pos, count);
    Ok(Read(if count <= 0 then [] else RecordsTable(data, pos, count), end))
  }

  /** Where the record loop stops, or the error it stops with. */
  function RecordsEnd(data: seq<Byte>, pos: nat, count: int): (r: Result<nat>)
  {
    if count <= 0 then Ok(pos)
    else if pos + 5 * count > |data| then Err(EndOfStream)
    else Ok(pos + 5 * count)
  }

  /** ReadFrequencyTable: the record count, which it does not check, then the records. */
  function ReadTable(data: seq<Byte>, pos: nat): (r: Result<Read<seq<(Byte, int)>>>)
    ensures r.Ok? ==> pos + 4 <= r.value.next <= |data|
  {
    var n :- ReadInt32(data, pos);
    ReadRecords(data, n.next, n.value)
  }

  /** The table as the listing and extraction loops read it: a negative record count is rejected. */
  function ReadCheckedTable(data: seq<Byte>, pos: nat): (r: Result<Read<seq<(Byte, int)>>>)
    ensures r.Ok? ==> pos + 4 <= r.value.next <= |data|
  {
    var n :- ReadInt32(data, pos);
    if n.value < 0 then Err(InvalidTableCount(n.value))
    else ReadRecords(data, n.next, n.value)
  }

  /** The fields of one entry, each checked as the listing and extraction loops check them. */
  function ReadEntry(data: seq<Byte>, pos: nat): (r: Result<Read<Entry>>)
    ensures r.Ok? ==> pos + 16 <= r.value.next <= |data|
  {
    var name :- ReadName(data, pos);
    var size :- ReadInt32(data, name.next);
    var table :- ReadCheckedTable(data, size.next);
    var payload :- ReadPayload(data, table.next);
    Ok(Read(Entry(name.value, size.value, table.value, payload.value), payload.next))
  }

  /**
   * The fields of one entry as GetFileListAsync reads them: every field is
   * read and checked as ReadEntry checks it, the records are dropped as they
   * are read, and only the path is kept.
   */
  function ListedEntry(data: seq<Byte>, pos: nat): (r: Result<Read<seq<Byte>>>)
  {
    var name :- ReadName(data, pos);
    var size :- ReadInt32(data, name.next);
    var count :- ReadInt32(data, size.next);
    if count.value < 0 then Err(InvalidTableCount(count.value))
    else
      var end :- RecordsEnd(data, count.next, count.value);
      var payload :- ReadPayload(data, end);
      Ok(Read(name.value, payload.next))
  }

  /** The listing loop from `pos` with `remaining` entries to go, after `names`. */
  function ListFrom(data: seq<Byte>, pos: nat, remaining: int, names: seq<seq<Byte>>): (r: Result<seq<seq<Byte>>>)
    ensures r.Ok? ==> |r.value| == |names| + (if remaining <= 0 then 0 else remaining) && r.value[..|names|] == names
    decreases remaining, 1
  {
    if remaining <= 0 then Ok(names) else ListEntry(data, pos, remaining, names)
  }

  /** One pass of the listing loop: the entry at `pos`, its path kept, then the loop goes on after it. */
  function ListEntry(data: seq<Byte>, pos: nat, remaining: int, names: seq<seq<Byte>>): (r: Result<seq<seq<Byte>>>)
    requires remaining > 0
    ensures r.Ok? ==> |r.value| == |names| + remaining && r.value[..|names|] == names
    decreases remaining, 0
  {
    var e :- ListedEntry(data, pos);
    var r := ListFrom(data, e.next, remaining - 1, names + [e.value]);
    assert r.Ok? ==> r.value[..|names|] == r.value[..|names| + 1][..|names|];
    r
  }

  /** GetFileListAsync: the stored path of every entry, in archive order. */
  function FileList(data: seq<Byte>): (r: Result<seq<seq<Byte>>>)
    ensures r.Ok? ==> |data| >= 4 && |r.value| == Int32At(data, 0)
  {
    var n :- ReadFileCount(data);
    ListFrom(data, n.next, n.value, [])
  }
  /**
   * The state invariant of GetFileList's loop: what the listing returns
   * from `pos` with `remaining` entries to go and `names` listed. It is not
   * recursive, so checking the invariant unfolds the listing only once.
   */
  function Listing(data: seq<Byte>, pos: nat, remaining: int, names: seq<seq<Byte>>): Result<seq<seq<Byte>>>
  {
    ListFrom(data, pos, remaining, names)
  }


  /**
   * One pass of DecompressAllAsync: path, size, ReadFrequencyTable, the
   * tree, payload, and the decoded bytes, with the output named by the
   * path's base name. The tree is built before the payload length is read.
   */
  function DecompressEntry(data: seq<Byte>, pos: nat): (r: Result<Read<(seq<Byte>, seq<Byte>)>>)
    ensures r.Ok? ==> pos + 16 <= r.value.next <= |data|
  {
    var name :- ReadName(data, pos);
    var size :- ReadInt32(data, name.next);
    var freq :- ReadTable(data, size.next);
    DecodeTail(data, freq.next, name.value, size.value, freq.value)
  }

  /** The rest of that pass, from the tree on, once path, size and table are read and the payload is next. */
  function DecodeTail(data: seq<Byte>, payloadAt: nat, name: seq<Byte>, size: int, freq: seq<(Byte, int)>)
    : (r: Result<Read<(seq<Byte>, seq<Byte>)>>)
    ensures r.Ok? ==> payloadAt + 4 <= r.value.next <= |data| && PlainName(r.value.value.0)
  {
    var root :- HuffmanTree(freq);
    var payload :- ReadPayload(data, payloadAt);
    var bytes :- DecodeFixed(Unpack(payload.value), root, size);
    Ok(Read((BaseName(name), bytes), payload.next))
  }

  /** The loop of DecompressAllAsync from `pos` with `remaining` entries to go, after `outputs`. */
  function DecompressFrom(data: seq<Byte>, pos: nat, remaining: int, outputs: seq<(seq<Byte>, seq<Byte>)>)
    : (r: Result<seq<(seq<Byte>, seq<Byte>)>>)
    ensures r.Ok? ==> |r.value| == |outputs| + (if remaining <= 0 then 0 else remaining) && r.value[..|outputs|] == outputs
    ensures r.Ok? ==> PlainFrom(r.value, |outputs|)
    decreases remaining, 1
  {
    if remaining <= 0 then Ok(outputs) else DecompressNext(data, pos, remaining, outputs)
  }

  /** One pass of that loop: the file of the entry at `pos`, then the loop goes on after it. */
  function DecompressNext(data: seq<Byte>, pos: nat, remaining: int, outputs: seq<(seq<Byte>, seq<Byte>)>)
    : (r: Result<seq<(seq<Byte>, seq<Byte>)>>)
    requires remaining > 0
    ensures r.Ok? ==> |r.value| == |outputs| + remaining && r.value[..|outputs|] == outputs
    ensures r.Ok? ==> PlainFrom(r.value, |outputs|)
    decreases remaining, 0
  {
    var out :- DecompressEntry(data, pos);
    var r := DecompressFrom(data, out.next, remaining - 1, outputs + [out.value]);
    if r.Ok? then OutputsAfter(outputs, out.value, r.value); r else r
  }

  /** DecompressAllAsync: the (file name, bytes) of every file it writes, in order, or the error it throws. */
  function DecompressedFiles(data: seq<Byte>): (r: Result<seq<(seq<Byte>, seq<Byte>)>>)
    ensures r.Ok? ==> |data| >= 4 && |r.value| == Int32At(data, 0)
    ensures r.Ok? ==> PlainFrom(r.value, 0)
  {
    var n :- ReadFileCount(data);
    DecompressFrom(data, n.next, n.value, [])
  }
  /** The state invariant of DecompressAll's loop, as Listing is for GetFileList. */
  function Decompression(data: seq<Byte>, pos: nat, remaining: int, outputs: seq<(seq<Byte>, seq<Byte>)>)
    : Result<seq<(seq<Byte>, seq<Byte>)>>
  {
    DecompressFrom(data, pos, remaining, outputs)
  }


  /**
   * The search of ExtractSingleFileAsync from `pos`: read an entry, and
   * decode it if its base name matches; an error anywhere propagates.
   */
  function ExtractFrom(data: seq<Byte>, pos: nat, remaining: int, requested: seq<Byte>): (r: Result<Option<seq<Byte>>>)
    ensures r.Ok? && r.value.Some? ==> exists p: nat :: FoundAt(data, p, requested, r.value.value)
    decreases remaining, 1
  {
    if remaining <= 0 then Ok(None) else ExtractNext(data, pos, remaining, requested)
  }

  /** One pass of that search: the entry at `pos`, decoded when it matches, else the search goes on after it. */
  function ExtractNext(data: seq<Byte>, pos: nat, remaining: int, requested: seq<Byte>): (r: Result<Option<seq<Byte>>>)
    requires remaining > 0
    ensures r.Ok? && r.value.Some? ==> exists p: nat :: FoundAt(data, p, requested, r.value.value)
    decreases remaining, 0
  {
    var e :- ReadEntry(data, pos);
    if SameFileName(e.value.name, requested) then
      var r := ExtractMatch(e.value);
      assert r.Ok? && r.value.Some? ==> FoundAt(data, pos, requested, r.value.value);
      r
    else ExtractFrom(data, e.next, remaining - 1, requested)
  }

  /** The entry at `p` reads, its path matches the requested file, and it decodes to `bytes`. */
  predicate FoundAt(data: seq<Byte>, p: nat, requested: seq<Byte>, bytes: seq<Byte>) {
    var e := ReadEntry(data, p);
    e.Ok? && SameFileName(e.value.value.name, requested) && ExtractMatch(e.value.value) == Ok(Some(bytes))
  }

  /** The matching entry decoded: the tree from its table, then its payload, of the size the entry records. */
  function ExtractMatch(e: Entry): (r: Result<Option<seq<Byte>>>)
    ensures e.freq == [] ==> r == Err(QueueEmpty)
    ensures r.Ok? ==> r.value.Some? && |r.value.value| == e.originalSize
  {
    var root :- HuffmanTree(e.freq);
    var bytes :- DecodeFixed(Unpack(e.packed), root, e.originalSize);
    Ok(Some(bytes))
  }

  /** ExtractSingleFileAsync: the bytes of the first matching entry, None when there is none (`false`). */
  function ExtractedFile(data: seq<Byte>, requested: seq<Byte>): (r: Result<Option<seq<Byte>>>)
    ensures |data| >= 4 && Int32At(data, 0) == 0 ==> r == Ok(None)
    ensures r.Ok? && r.value.Some? ==> exists p: nat :: FoundAt(data, p, requested, r.value.value)
  {
    var n :- ReadFileCount(data);
    ExtractFrom(data, n.next, n.value, requested)
  }
  /** The state invariant of ExtractSingleFile's loop, as Listing is for GetFileList. */
  function Extraction(data: seq<Byte>, pos: nat, remaining: int, requested: seq<Byte>): Result<Option<seq<Byte>>>
  {
    ExtractFrom(data, pos, remaining, requested)
  }


  /*
   * The reading loops.
   */

  /** One record of the table loops: `reader.ReadByte()`, then `reader.ReadInt32()`. */
  method ReadRecord(data: seq<Byte>, p: nat) returns (r: Result<(Byte, int)>)
    ensures r.Ok? <==> p + 5 <= |data|
    ensures r.Ok? ==> r.value == (data[p], Int32At(data, p + 1))
    ensures r.Err? ==> r.error == EndOfStream
  {
    var sym := ReadByte(data, p);
    if sym.Err? {
      return Err(sym.error);
    }
    var count := ReadInt32(data, sym.value.next);
    if count.Err? {
      return Err(count.error);
    }
    return Ok((sym.value.value, count.value.value));
  }

  /** One more record read stores its byte and count in the table read so far. */
  lemma RecordsTableStep(data: seq<Byte>, pos: nat, j: nat)
    requires pos + 5 * (j + 1) <= |data|
    ensures RecordsTable(data, pos, j + 1) == Set(RecordsTable(data, pos, j), data[pos + 5 * j], Int32At(data, pos + 5 * j + 1))
  {
  }

  /** The record loop, once it has run `j` times and stopped, has read what ReadRecords reads. */
  lemma ReadRecordsDone(data: seq<Byte>, pos: nat, count: int, j: nat)
    requires (j == 0 && count <= 0) || (j == count && pos + 5 * j <= |data|)
    ensures ReadRecords(data, pos, count) == Ok(Read(RecordsTable(data, pos, j), pos + 5 * j))
  {
    if count > 0 {
      assert RecordsEnd(data, pos, count) == Ok(pos + 5 * j);
    }
  }

  /** The `for (j < count)` loop of ReadFrequencyTable and ExtractSingleFileAsync. */
  method ReadRecordsLoop(data: seq<Byte>, pos: nat, count: int) returns (r: Result<Read<seq<(Byte, int)>>>)
    ensures r == ReadRecords(data, pos, count)
  {
    var freq: seq<(Byte, int)> := [];
    var p := pos;
    var j := 0;
    while j < count
      invariant 0 <= j && (j == 0 || j <= count) && p == pos + 5 * j
      invariant (j == 0 || p <= |data|) && freq == RecordsTable(data, pos, j)
      decreases count - j
    {
      var record := ReadRecord(data, p);
      if record.Err? {
        assert pos + 5 * count > |data|;
        return Err(record.error);
      }
      RecordsTableStep(data, pos, j);
      freq := Set(freq, record.value.0, record.value.1);
      p := p + 5;
      j := j + 1;
    }
    ReadRecordsDone(data, pos, count, j);
    return Ok(Read(freq, p));
  }

  /** The record loop of GetFileListAsync, which reads each record and keeps nothing. */
  method SkipRecords(data: seq<Byte>, pos: nat, count: int) returns (r: Result<nat>)
    ensures r == RecordsEnd(data, pos, count)
  {
    var p := pos;
    var j := 0;
    while j < count
      invariant 0 <= j && (j == 0 || j <= count) && p == pos + 5 * j
      invariant j > 0 ==> p <= |data|
      decreases count - j
    {
      var record := ReadRecord(data, p);
      if record.Err? {
        return Err(record.error);
      }
      p := p + 5;
      j := j + 1;
    }
    return Ok(p);
  }

  /** ReadFrequencyTable. */
  method ReadFrequencyTable(data: seq<Byte>, pos: nat) returns (r: Result<Read<seq<(Byte, int)>>>)
    ensures r == ReadTable(data, pos)
  {
    var freqCount := ReadInt32(data, pos);
    if freqCount.Err? {
      return Err(freqCount.error);
    }
    r := ReadRecordsLoop(data, freqCount.value.next, freqCount.value.value);
  }

  /**
   * One pass of the loop of GetFileListAsync: every field read and
   * checked, the path kept and the rest dropped.
   */
  method SkipEntry(data: seq<Byte>, pos: nat) returns (r: Result<Read<seq<Byte>>>)
    ensures r == ListedEntry(data, pos)
  {
    var name := ReadName(data, pos);
    if name.Err? {
      return Err(name.error);
    }
    var size := ReadInt32(data, name.value.next);
    if size.Err? {
      return Err(size.error);
    }
    var freqCount := ReadInt32(data, size.value.next);
    if freqCount.Err? {
      return Err(freqCount.error);
    }
    if freqCount.value.value < 0 {
      return Err(InvalidTableCount(freqCount.value.value));
    }
    var afterTable := SkipRecords(data, freqCount.value.next, freqCount.value.value);
    if afterTable.Err? {
      return Err(afterTable.error);
    }
    var payload := ReadPayload(data, afterTable.value);
    if payload.Err? {
      return Err(payload.error);
    }
    return Ok(Read(name.value.value, payload.value.next));
  }

  /** The listing loop with entries to go: the entry at `pos`, then the rest after it. */
  lemma ListFromStep(data: seq<Byte>, pos: nat, remaining: int, names: seq<seq<Byte>>)
    requires remaining > 0
    ensures ListedEntry(data, pos).Err? ==> ListFrom(data, pos, remaining, names) == Err(ListedEntry(data, pos).error)
    ensures ListedEntry(data, pos).Ok?
      ==> ListFrom(data, pos, remaining, names)
          == ListFrom(data, ListedEntry(data, pos).value.next, remaining - 1, names + [ListedEntry(data, pos).value.value])
  {
  }

  /** One pass of the loop of GetFileListAsync: the path of the entry at `pos`, and where the next one starts. */
  method ListPass(data: seq<Byte>, pos: nat, ghost remaining: int, names: seq<seq<Byte>>) returns (r: Result<Read<seq<Byte>>>)
    requires remaining > 0
    ensures r.Err? ==> Listing(data, pos, remaining, names) == Err(r.error)
    ensures r.Ok? ==> Listing(data, r.value.next, remaining - 1, names + [r.value.value]) == Listing(data, pos, remaining, names)
  {
    ListFromStep(data, pos, remaining, names);
    r := SkipEntry(data, pos);
  }

  /** GetFileListAsync. */
  method GetFileList(data: seq<Byte>) returns (r: Result<seq<seq<Byte>>>)
    ensures r == FileList(data)
  {
    var header := ReadFileCount(data);
    if header.Err? {
      return Err(header.error);
    }
    var fileCount := header.value.value;
    var pos := header.value.next;
    var fileList: seq<seq<Byte>> := [];
    ghost var remaining := fileCount;
    ghost var goal := FileList(data);
    for i := 0 to fileCount
      invariant remaining == fileCount - i
      invariant Listing(data, pos, remaining, fileList) == goal
    {
      var entry := ListPass(data, pos, remaining, fileList);
      if entry.Err? {
        return Err(entry.error);
      }
      fileList := fileList + [entry.value.value];
      pos := entry.value.next;
      remaining := remaining - 1;
    }
    return Ok(fileList);
  }

  /**
   * One pass of the loop of DecompressAllAsync: path, size,
   * ReadFrequencyTable, the tree, payload and DecodeData.
   */
  method DecompressOne(data: seq<Byte>, pos: nat) returns (r: Result<Read<(seq<Byte>, seq<Byte>)>>)
    ensures r == DecompressEntry(data, pos)
  {
    var name := ReadName(data, pos);
    if name.Err? {
      return Err(name.error);
    }
    var size := ReadInt32(data, name.value.next);
    if size.Err? {
      return Err(size.error);
    }
    var freq := ReadFrequencyTable(data, size.value.next);
    if freq.Err? {
      return Err(freq.error);
    }
    var root := BuildHuffmanTree(freq.value.value);
    if root.Err? {
      return Err(root.error);
    }
    var payload := ReadPayload(data, freq.value.next);
    if payload.Err? {
      return Err(payload.error);
    }
    var bytes := DecodePayload(payload.value.value, root.value, size.value.value);
    if bytes.Err? {
      return Err(bytes.error);
    }
    return Ok(Read((BaseName(name.value.value), bytes.value), payload.value.next));
  }

  /** The decompression loop with entries to go: the file at `pos`, then the rest after it. */
  lemma DecompressFromStep(data: seq<Byte>, pos: nat, remaining: int, outputs: seq<(seq<Byte>, seq<Byte>)>)
    requires remaining > 0
    ensures DecompressEntry(data, pos).Err? ==> DecompressFrom(data, pos, remaining, outputs) == Err(DecompressEntry(data, pos).error)
    ensures DecompressEntry(data, pos).Ok?
      ==> DecompressFrom(data, pos, remaining, outputs)
          == DecompressFrom(data, DecompressEntry(data, pos).value.next, remaining - 1, outputs + [DecompressEntry(data, pos).value.value])
  {
  }

  /** One pass of the loop of DecompressAllAsync: the file of the entry at `pos`, and where the next one starts. */
  method DecompressPass(data: seq<Byte>, pos: nat, ghost remaining: int, outputs: seq<(seq<Byte>, seq<Byte>)>)
    returns (r: Result<Read<(seq<Byte>, seq<Byte>)>>)
    requires remaining > 0
    ensures r.Err? ==> Decompression(data, pos, remaining, outputs) == Err(r.error)
    ensures r.Ok? ==> Decompression(data, r.value.next, remaining - 1, outputs + [r.value.value]) == Decompression(data, pos, remaining, outputs)
  {
    DecompressFromStep(data, pos, remaining, outputs);
    r := DecompressOne(data, pos);
  }

  /** DecompressAllAsync, with the corrected decoder. */
  method DecompressAll(data: seq<Byte>) returns (r: Result<seq<(seq<Byte>, seq<Byte>)>>)
    ensures r == DecompressedFiles(data)
  {
    var header := ReadFileCount(data);
    if header.Err? {
      return Err(header.error);
    }
    var fileCount := header.value.value;
    var pos := header.value.next;
    var outputs: seq<(seq<Byte>, seq<Byte>)> := [];
    ghost var remaining := fileCount;
    ghost var goal := DecompressedFiles(data);
    for i := 0 to fileCount
      invariant remaining == fileCount - i
      invariant Decompression(data, pos, remaining, outputs) == goal
    {
      var out := DecompressPass(data, pos, remaining, outputs);
      if out.Err? {
        return Err(out.error);
      }
      outputs := outputs + [out.value.value];
      pos := out.value.next;
      remaining := remaining - 1;
    }
    return Ok(outputs);
  }

  /** The fields of one entry as the loop of ExtractSingleFileAsync reads them. */
  method ReadEntryFields(data: seq<Byte>, pos: nat) returns (r: Result<Read<Entry>>)
    ensures r == ReadEntry(data, pos)
  {
    var name := ReadName(data, pos);
    if name.Err? {
      return Err(name.error);
    }
    var size := ReadInt32(data, name.value.next);
    if size.Err? {
      return Err(size.error);
    }
    var freqCount := ReadInt32(data, size.value.next);
    if freqCount.Err? {
      return Err(freqCount.error);
    }
    if freqCount.value.value < 0 {
      return Err(InvalidTableCount(freqCount.value.value));
    }
    var freq := ReadRecordsLoop(data, freqCount.value.next, freqCount.value.value);
    if freq.Err? {
      return Err(freq.error);
    }
    var payload := ReadPayload(data, freq.value.next);
    if payload.Err? {
      return Err(payload.error);
    }
    return Ok(Read(Entry(name.value.value, size.value.value, freq.value.value, payload.value.value), payload.value.next));
  }

  /** The matching entry of ExtractSingleFileAsync: BuildHuffmanTree, then DecodeData. */
  method DecodeEntry(e: Entry) returns (r: Result<Option<seq<Byte>>>)
    ensures r == ExtractMatch(e)
  {
    var root := BuildHuffmanTree(e.freq);
    if root.Err? {
      return Err(root.error);
    }
    var bytes := DecodePayload(e.packed, root.value, e.originalSize);
    if bytes.Err? {
      return Err(bytes.error);
    }
    return Ok(Some(bytes.value));
  }

  /** The search with entries to go: the entry at `pos`, decoded if it matches, else the rest after it. */
  lemma ExtractFromStep(data: seq<Byte>, pos: nat, remaining: int, requested: seq<Byte>)
    requires remaining > 0
    ensures ReadEntry(data, pos).Err? ==> ExtractFrom(data, pos, remaining, requested) == Err(ReadEntry(data, pos).error)
    ensures ReadEntry(data, pos).Ok? && SameFileName(ReadEntry(data, pos).value.value.name, requested)
      ==> ExtractFrom(data, pos, remaining, requested) == ExtractMatch(ReadEntry(data, pos).value.value)
    ensures ReadEntry(data, pos).Ok? && !SameFileName(ReadEntry(data, pos).value.value.name, requested)
      ==> ExtractFrom(data, pos, remaining, requested) == ExtractFrom(data, ReadEntry(data, pos).value.next, remaining - 1, requested)
  {
  }

  /**
   * One pass of the loop of ExtractSingleFileAsync: the entry at `pos`,
   * decoded when its name matches (`stop`, with the outcome `r`), else the
   * position `next` where the search goes on.
   */
  method ExtractPass(data: seq<Byte>, pos: nat, ghost remaining: int, requested: seq<Byte>)
    returns (stop: bool, r: Result<Option<seq<Byte>>>, next: nat)
    requires remaining > 0
    ensures stop ==> r == Extraction(data, pos, remaining, requested)
    ensures !stop ==> Extraction(data, next, remaining - 1, requested) == Extraction(data, pos, remaining, requested)
  {
    ExtractFromStep(data, pos, remaining, requested);
    var e := ReadEntryFields(data, pos);
    if e.Err? {
      return true, Err(e.error), pos;
    }
    if SameFileName(e.value.value.name, requested) {
      r := DecodeEntry(e.value.value);
      return true, r, pos;
    }
    return false, Ok(None), e.value.next;
  }

  /** ExtractSingleFileAsync, with the corrected decoder. */
  method ExtractSingleFile(data: seq<Byte>, requested: seq<Byte>) returns (r: Result<Option<seq<Byte>>>)
    ensures r == ExtractedFile(data, requested)
  {
    var header := ReadFileCount(data);
    if header.Err? {
      return Err(header.error);
    }
    var fileCount := header.value.value;
    var pos := header.value.next;
    ghost var remaining := fileCount;
    ghost var goal := ExtractedFile(data, requested);
    for i := 0 to fileCount
      invariant remaining == fileCount - i
      invariant Extraction(data, pos, remaining, requested) == goal
    {
      var stop, outcome, next := ExtractPass(data, pos, remaining, requested);
      if stop {
        return outcome;
      }
      pos := next;
      remaining := remaining - 1;
    }
    return Ok(None);
  }

  /*
   * The archive of a set of files, read back whole.
   */

  /** The entries of a successful compression: one per file, the first of them that of the first file. */
  lemma {:induction false} CompressAllCons(files: seq<(seq<Byte>, seq<Byte>)>, es: seq<Entry>)
    requires CompressAll(files) == Ok(es)
    ensures |es| == |files|
    ensures files != [] ==> Compresses(files[0], es[0]) && CompressAll(files[1..]) == Ok(es[1..])
  {
    if files != [] {
      var e, rest := CompressEntry(files[0].0, files[0].1), CompressAll(files[1..]);
      assert e.Ok? && rest.Ok?;
      assert es == [e.value] + rest.value;
      assert es[1..] == rest.value;
      CompressAllCons(files[1..], rest.value);
    }
  }

  /** Where the path, the original size and the record count of a written entry occur, the records starting at `tableAt`. */
  predicate HeadAt(data: seq<Byte>, pos: nat, e: Entry, tableAt: nat)
    requires Writable(e)
  {
    && At(data, pos, LengthPrefixed(e.name))
    && At(data, pos + 4 + |e.name|, Int32Bytes(e.originalSize))
    && At(data, pos + 8 + |e.name|, Int32Bytes(|e.freq|))
    && tableAt == pos + 12 + |e.name|
  }

  /** Where each field of a written entry occurs, the records starting at `tableAt` and the payload at `payloadAt`. */
  predicate FieldsAt(data: seq<Byte>, pos: nat, e: Entry, tableAt: nat, payloadAt: nat)
    requires Writable(e)
  {
    && HeadAt(data, pos, e, tableAt)
    && At(data, tableAt, RecordBytes(e.freq))
    && payloadAt == tableAt + |RecordBytes(e.freq)|
    && At(data, payloadAt, LengthPrefixed(e.packed))
  }

  /** The bytes of an entry split into its fields. */
  lemma EntryLayout(data: seq<Byte>, pos: nat, e: Entry) returns (tableAt: nat, payloadAt: nat)
    requires Writable(e) && At(data, pos, EntryBytes(e))
    ensures FieldsAt(data, pos, e, tableAt, payloadAt)
    ensures payloadAt + 4 + |e.packed| == pos + |EntryBytes(e)|
  {
    var name, size, payload := LengthPrefixed(e.name), Int32Bytes(e.originalSize), LengthPrefixed(e.packed);
    var count, records := Int32Bytes(|e.freq|), RecordBytes(e.freq);
    tableAt := pos + 12 + |e.name|;
    payloadAt := tableAt + |records|;
    assert EntryBytes(e) == name + (size + ((count + records) + payload));
    AtSplit5(data, pos, name, size, count, records, payload, pos + 4 + |e.name|, pos + 8 + |e.name|, tableAt, payloadAt);
  }

  /** Record `k` of a written table: its byte at `pos + 5 * k`, its count in the four bytes after it. */
  lemma {:induction false} RecordBytesAt(data: seq<Byte>, pos: nat, freq: seq<(Byte, int)>, k: nat)
    requires CountsFit(freq) && At(data, pos, RecordBytes(freq)) && k < |freq|
    ensures pos + 5 * k + 5 <= |data|
    ensures data[pos + 5 * k] == freq[k].0 && Int32At(data, pos + 5 * k + 1) == freq[k].1
    decreases k
  {
    RecordFirst(data, pos, freq);
    if k > 0 {
      RecordBytesAt(data, pos + 5, freq[1..], k - 1);
      assert freq[1..][k - 1] == freq[k];
    }
  }

  /** The first record of a written table: its byte at `pos`, its count after it, then the other records. */
  lemma RecordFirst(data: seq<Byte>, pos: nat, freq: seq<(Byte, int)>)
    requires CountsFit(freq) && At(data, pos, RecordBytes(freq)) && freq != []
    ensures pos + 5 <= |data| && data[pos] == freq[0].0 && Int32At(data, pos + 1) == freq[0].1
    ensures CountsFit(freq[1..]) && At(data, pos + 5, RecordBytes(freq[1..]))
  {
    var rest := freq[1..];
    CountsFitTail(freq);
    var k, count := freq[0].0, Int32Bytes(freq[0].1);
    assert RecordBytes(freq) == [k] + (count + RecordBytes(rest));
    AtSplit(data, pos, [k], count + RecordBytes(rest));
    AtSplit(data, pos + 1, count, RecordBytes(rest));
    assert data[pos..pos + 1][0] == data[pos];
    ReadInt32At(data, pos + 1, freq[0].1);
  }

  /** The pairs after the first fit their fields too. */
  lemma CountsFitTail(freq: seq<(Byte, int)>)
    requires CountsFit(freq) && freq != []
    ensures CountsFit(freq[1..])
  {
    var rest := freq[1..];
    forall i | 0 <= i < |rest| ensures IsInt32(rest[i].1) {
      assert rest[i] == freq[i + 1];
    }
  }

  /** Every record of `freq` is stored at `pos`: the byte of pair `k` at `pos + 5 * k`, its count after it. */
  predicate RecordsStored(data: seq<Byte>, pos: nat, freq: seq<(Byte, int)>) {
    forall k :: 0 <= k < |freq| ==>
      pos + 5 * k + 5 <= |data| && data[pos + 5 * k] == freq[k].0 && Int32At(data, pos + 5 * k + 1) == freq[k].1
  }

  /** A written table stores every record where the reader looks for it. */
  lemma RecordsStoredAt(data: seq<Byte>, pos: nat, freq: seq<(Byte, int)>)
    requires CountsFit(freq) && At(data, pos, RecordBytes(freq))
    ensures RecordsStored(data, pos, freq)
  {
    forall k | 0 <= k < |freq|
      ensures pos + 5 * k + 5 <= |data| && data[pos + 5 * k] == freq[k].0 && Int32At(data, pos + 5 * k + 1) == freq[k].1
    {
      RecordBytesAt(data, pos, freq, k);
    }
  }

  /** No records: nothing is read and the loop stops where it started. */
  lemma RecordsNoneAt(data: seq<Byte>, pos: nat)
    ensures RecordsEnd(data, pos, 0) == Ok(pos) && ReadRecords(data, pos, 0) == Ok(Read([], pos))
  {
  }

  /** Records that all fit are all read, and the loop stops right after them. */
  lemma RecordsEndAt(data: seq<Byte>, pos: nat, n: nat)
    requires 0 < n && pos + 5 * n <= |data|
    ensures RecordsEnd(data, pos, n) == Ok(pos + 5 * n)
    ensures ReadRecords(data, pos, n) == Ok(Read(RecordsTable(data, pos, n), pos + 5 * n))
  {
  }

  /** The first `n` stored records of a table with distinct bytes are read back as its first `n` pairs. */
  lemma {:induction false} RecordsTableAt(data: seq<Byte>, pos: nat, freq: seq<(Byte, int)>, n: nat)
    requires RecordsStored(data, pos, freq) && NoDuplicates(Keys(freq)) && n <= |freq|
    ensures n == 0 || pos + 5 * n <= |data|
    ensures RecordsTable(data, pos, n) == freq[..n]
    decreases n
  {
    if n > 0 {
      RecordsTableAt(data, pos, freq, n - 1);
      var p, last := pos + 5 * (n - 1), freq[n - 1];
      assert data[p] == last.0 && Int32At(data, p + 1) == last.1;
      assert RecordsTable(data, pos, n) == Set(freq[..n - 1], last.0, last.1);
      FreshRecordKey(freq, n - 1);
      SetFresh(freq[..n - 1], last.0, last.1);
      TakeSnoc(freq, n - 1);
    }
  }

  /** In a table with distinct keys, the key of pair `k` is not among the keys before it. */
  lemma FreshRecordKey(freq: seq<(Byte, int)>, k: nat)
    requires NoDuplicates(Keys(freq)) && k < |freq|
    ensures freq[k].0 !in Keys(freq[..k])
  {
  }

  /** A written entry: its fields fit, and its table, a Dictionary in the source, has distinct keys. */
  predicate Readable(e: Entry) {
    Writable(e) && NoDuplicates(Keys(e.freq))
  }

  /** What the readers give back for the path, the original size and the record count of an entry. */
  predicate HeadRead(data: seq<Byte>, pos: nat, e: Entry, tableAt: nat) {
    && ReadName(data, pos) == Ok(Read(e.name, pos + 4 + |e.name|))
    && ReadInt32(data, pos + 4 + |e.name|) == Ok(Read(e.originalSize, pos + 8 + |e.name|))
    && ReadInt32(data, pos + 8 + |e.name|) == Ok(Read(|e.freq|, tableAt))
  }

  /** What the readers give back, field by field, where the fields of an entry occur. */
  predicate FieldsRead(data: seq<Byte>, pos: nat, e: Entry, tableAt: nat, payloadAt: nat) {
    && HeadRead(data, pos, e, tableAt)
    && ReadTable(data, pos + 8 + |e.name|) == Ok(Read(e.freq, payloadAt))
    && ReadCheckedTable(data, pos + 8 + |e.name|) == Ok(Read(e.freq, payloadAt))
    && RecordsEnd(data, tableAt, |e.freq|) == Ok(payloadAt)
    && ReadPayload(data, payloadAt) == Ok(Read(e.packed, payloadAt + 4 + |e.packed|))
  }

  /** Each field of a written entry is read back where it was written. */
  lemma FieldsReadBack(data: seq<Byte>, pos: nat, e: Entry, tableAt: nat, payloadAt: nat)
    requires Readable(e) && FieldsAt(data, pos, e, tableAt, payloadAt)
    ensures FieldsRead(data, pos, e, tableAt, payloadAt)
  {
    ReadPayloadAt(data, payloadAt, e.packed);
    HeadReadBack(data, pos, e, tableAt);
    TableReadBack(data, pos, e, tableAt, payloadAt);
  }

  /** The path, the original size and the record count of a written entry are read back. */
  lemma HeadReadBack(data: seq<Byte>, pos: nat, e: Entry, tableAt: nat)
    requires Writable(e) && HeadAt(data, pos, e, tableAt)
    ensures HeadRead(data, pos, e, tableAt)
  {
    ReadNameAt(data, pos, e.name);
    ReadInt32At(data, pos + 4 + |e.name|, e.originalSize);
    ReadInt32At(data, pos + 8 + |e.name|, |e.freq|);
  }

  /** The table of a written entry is read back by either table read, and skipped to where the payload starts. */
  lemma TableReadBack(data: seq<Byte>, pos: nat, e: Entry, tableAt: nat, payloadAt: nat)
    requires Readable(e) && FieldsAt(data, pos, e, tableAt, payloadAt) && HeadRead(data, pos, e, tableAt)
    ensures ReadTable(data, pos + 8 + |e.name|) == Ok(Read(e.freq, payloadAt))
    ensures ReadCheckedTable(data, pos + 8 + |e.name|) == Ok(Read(e.freq, payloadAt))
    ensures RecordsEnd(data, tableAt, |e.freq|) == Ok(payloadAt)
  {
    if e.freq == [] {
      RecordsNoneAt(data, tableAt);
    } else {
      WrittenTable(data, tableAt, e.freq);
      RecordsEndAt(data, tableAt, |e.freq|);
    }
    TablesOf(data, pos, e, tableAt, payloadAt);
  }

  /** The table read from written records with distinct bytes is the table written. */
  lemma WrittenTable(data: seq<Byte>, pos: nat, freq: seq<(Byte, int)>)
    requires CountsFit(freq) && At(data, pos, RecordBytes(freq)) && NoDuplicates(Keys(freq))
    ensures |freq| == 0 || pos + 5 * |freq| <= |data|
    ensures |freq| > 0 ==> RecordsTable(data, pos, |freq|) == freq
  {
    RecordsStoredAt(data, pos, freq);
    RecordsTableAt(data, pos, freq, |freq|);
    assert freq[..|freq|] == freq;
  }

  /** ReadFrequencyTable, and the checked read of the other loops, read back a table whose records are read back. */
  lemma TablesOf(data: seq<Byte>, pos: nat, e: Entry, tableAt: nat, payloadAt: nat)
    requires HeadRead(data, pos, e, tableAt) && ReadRecords(data, tableAt, |e.freq|) == Ok(Read(e.freq, payloadAt))
    ensures ReadTable(data, pos + 8 + |e.name|) == Ok(Read(e.freq, payloadAt))
    ensures ReadCheckedTable(data, pos + 8 + |e.name|) == Ok(Read(e.freq, payloadAt))
  {
  }

  /** ReadEntry reads back an entry whose fields are read back. */
  lemma ReadEntryOf(data: seq<Byte>, pos: nat, e: Entry, tableAt: nat, payloadAt: nat, next: nat)
    requires FieldsRead(data, pos, e, tableAt, payloadAt) && next == payloadAt + 4 + |e.packed|
    ensures ReadEntry(data, pos) == Ok(Read(e, next))
  {
    var name := ReadName(data, pos);
    var size := ReadInt32(data, name.value.next);
    var table := ReadCheckedTable(data, size.value.next);
    assert table == Ok(Read(e.freq, payloadAt));
    var payload := ReadPayload(data, payloadAt);
    assert payload == Ok(Read(e.packed, next));
  }

  /** GetFileListAsync reads the path of an entry whose fields are read back, and steps over the rest of it. */
  lemma ListedEntryOf(data: seq<Byte>, pos: nat, e: Entry, tableAt: nat, payloadAt: nat, next: nat)
    requires FieldsRead(data, pos, e, tableAt, payloadAt) && next == payloadAt + 4 + |e.packed|
    ensures ListedEntry(data, pos) == Ok(Read(e.name, next))
  {
    var name := ReadName(data, pos);
    var size := ReadInt32(data, name.value.next);
    var count := ReadInt32(data, size.value.next);
    assert count == Ok(Read(|e.freq|, tableAt));
    var end := RecordsEnd(data, tableAt, |e.freq|);
    assert end == Ok(payloadAt);
    var payload := ReadPayload(data, payloadAt);
    assert payload == Ok(Read(e.packed, next));
  }

  /** DecompressAllAsync reads the path, size and table of an entry whose fields are read back, and goes on to decode. */
  lemma DecompressEntryOf(data: seq<Byte>, pos: nat, e: Entry, tableAt: nat, payloadAt: nat)
    requires FieldsRead(data, pos, e, tableAt, payloadAt)
    ensures DecompressEntry(data, pos) == DecodeTail(data, payloadAt, e.name, e.originalSize, e.freq)
  {
    DecompressEntryHead(data, pos, e.name, pos + 4 + |e.name|, e.originalSize, pos + 8 + |e.name|, e.freq, payloadAt);
  }

  /** DecompressAllAsync goes on to decode after whatever path, size and table it read. */
  lemma DecompressEntryHead(data: seq<Byte>, pos: nat, name: seq<Byte>, nameEnd: nat, size: int, sizeEnd: nat,
                            freq: seq<(Byte, int)>, payloadAt: nat)
    requires ReadName(data, pos) == Ok(Read(name, nameEnd))
    requires ReadInt32(data, nameEnd) == Ok(Read(size, sizeEnd))
    requires ReadTable(data, sizeEnd) == Ok(Read(freq, payloadAt))
    ensures DecompressEntry(data, pos) == DecodeTail(data, payloadAt, name, size, freq)
  {
  }

  /** The tree, the payload and the decoded bytes of an entry whose payload is read back and decodes. */
  lemma DecodeTailOf(data: seq<Byte>, payloadAt: nat, e: Entry, next: nat, bytes: seq<Byte>)
    requires ReadPayload(data, payloadAt) == Ok(Read(e.packed, next)) && ExtractMatch(e) == Ok(Some(bytes))
    ensures DecodeTail(data, payloadAt, e.name, e.originalSize, e.freq) == Ok(Read((BaseName(e.name), bytes), next))
  {
  }

  /** The entry CompressFilesAsync makes of a file decodes back to the file. */
  lemma CompressEntryDecodes(name: seq<Byte>, input: seq<Byte>, e: Entry)
    requires CompressEntry(name, input) == Ok(e)
    ensures NoDuplicates(Keys(e.freq)) && ExtractMatch(e) == Ok(Some(input))
  {
    HuffmanRoundTripFixed(input);
  }

  /** `e` is the entry compressed from `file`. */
  predicate Compresses(file: (seq<Byte>, seq<Byte>), e: Entry) {
    CompressEntry(file.0, file.1) == Ok(e)
  }

  /** The entry of file `i` is made from that file. */
  lemma {:induction false} CompressAllAt(files: seq<(seq<Byte>, seq<Byte>)>, es: seq<Entry>, i: nat)
    requires CompressAll(files) == Ok(es) && i < |es|
    ensures i < |files| && Compresses(files[i], es[i])
    decreases i
  {
    CompressAllCons(files, es);
    if i > 0 {
      var tail, rest := files[1..], es[1..];
      CompressAllAt(tail, rest, i - 1);
      assert tail[i - 1] == files[i] && rest[i - 1] == es[i];
    }
  }

  /** A written entry that gives back `file`: its path, and the bytes its table and payload decode to. */
  predicate Restores(e: Entry, file: (seq<Byte>, seq<Byte>)) {
    Readable(e) && e.name == file.0 && ExtractMatch(e) == Ok(Some(file.1))
  }

  /** Entry by entry, the entries give back the files. */
  predicate AllRestore(es: seq<Entry>, files: seq<(seq<Byte>, seq<Byte>)>) {
    |es| == |files| && forall i :: 0 <= i < |es| ==> Restores(es[i], files[i])
  }

  /** The first entry gives back the first file, and the entries after it the files after it. */
  lemma AllRestoreTail(es: seq<Entry>, files: seq<(seq<Byte>, seq<Byte>)>)
    requires es != [] && AllRestore(es, files)
    ensures Restores(es[0], files[0]) && AllRestore(es[1..], files[1..])
  {
    forall i | 0 <= i < |es[1..]| ensures Restores(es[1..][i], files[1..][i]) {
      assert es[1..][i] == es[i + 1] && files[1..][i] == files[i + 1];
    }
  }

  /** The entries of a successful compression that fit their fields give back the files. */
  lemma CompressedRestores(files: seq<(seq<Byte>, seq<Byte>)>, es: seq<Entry>)
    requires CompressAll(files) == Ok(es) && AllWritable(es)
    ensures AllRestore(es, files)
  {
    CompressAllCons(files, es);
    forall i | 0 <= i < |es| ensures Restores(es[i], files[i]) {
      CompressAllAt(files, es, i);
      CompressEntryDecodes(files[i].0, files[i].1, es[i]);
    }
  }

  /** Every entry is readable. */
  predicate AllReadable(es: seq<Entry>) {
    forall i :: 0 <= i < |es| ==> Readable(es[i])
  }

  /** The stored paths of the entries, in archive order. */
  function Names(es: seq<Entry>): (names: seq<seq<Byte>>)
    ensures |names| == |es| && forall i :: 0 <= i < |es| ==> names[i] == es[i].name
  {
    seq(|es|, i requires 0 <= i < |es| => es[i].name)
  }

  /** The names listed so far and the first entry's path, then the other paths: all the paths. */
  lemma NamesAfter(names: seq<seq<Byte>>, es: seq<Entry>)
    requires es != []
    ensures (names + [es[0].name]) + Names(es[1..]) == names + Names(es)
  {
    var listed, all := (names + [es[0].name]) + Names(es[1..]), names + Names(es);
    assert |listed| == |all|;
    forall k | 0 <= k < |all| ensures listed[k] == all[k] {
      if k > |names| {
        assert es[1..][k - |names| - 1] == es[k - |names|];
      }
    }
  }

  /** Where the entries are written, the first entry is written, and the others right after it. */
  lemma EntriesAt(data: seq<Byte>, pos: nat, es: seq<Entry>) returns (next: nat)
    requires es != [] && AllWritable(es) && At(data, pos, EntriesBytes(es))
    ensures AllWritable(es[1..]) && next == pos + |EntryBytes(es[0])|
    ensures At(data, pos, EntryBytes(es[0])) && At(data, next, EntriesBytes(es[1..]))
  {
    assert AllWritable(es[1..]) by {
      forall i | 0 <= i < |es[1..]| ensures Writable(es[1..][i]) {
        assert es[1..][i] == es[i + 1];
      }
    }
    assert EntriesBytes(es) == EntryBytes(es[0]) + EntriesBytes(es[1..]);
    AtSplit(data, pos, EntryBytes(es[0]), EntriesBytes(es[1..]));
    next := pos + |EntryBytes(es[0])|;
  }

  /** The fields of the first entry, which is readable, are read back, and the entry ends where the next one starts. */
  lemma FirstFields(data: seq<Byte>, pos: nat, es: seq<Entry>) returns (tableAt: nat, payloadAt: nat, next: nat)
    requires es != [] && AllWritable(es) && Readable(es[0]) && At(data, pos, EntriesBytes(es))
    ensures FieldsRead(data, pos, es[0], tableAt, payloadAt) && next == payloadAt + 4 + |es[0].packed|
    ensures AllWritable(es[1..]) && At(data, next, EntriesBytes(es[1..]))
  {
    next := EntriesAt(data, pos, es);
    tableAt, payloadAt := EntryLayout(data, pos, es[0]);
    FieldsReadBack(data, pos, es[0], tableAt, payloadAt);
  }

  /** The fields of the first entry are read back, and the entry ends where the next one starts. */
  lemma FirstEntryRead(data: seq<Byte>, pos: nat, es: seq<Entry>) returns (tableAt: nat, payloadAt: nat, next: nat)
    requires es != [] && AllReadable(es) && At(data, pos, EntriesBytes(es))
    ensures FieldsRead(data, pos, es[0], tableAt, payloadAt) && next == payloadAt + 4 + |es[0].packed|
    ensures AllReadable(es[1..]) && At(data, next, EntriesBytes(es[1..]))
  {
    tableAt, payloadAt, next := FirstFields(data, pos, es);
    assert AllReadable(es[1..]) by {
      forall i | 0 <= i < |es[1..]| ensures Readable(es[1..][i]) {
        assert es[1..][i] == es[i + 1];
      }
    }
  }

  /** GetFileListAsync lists the path of the first written entry and goes on where the others start. */
  lemma ListedFirst(data: seq<Byte>, pos: nat, es: seq<Entry>) returns (next: nat)
    requires es != [] && AllReadable(es) && At(data, pos, EntriesBytes(es))
    ensures ListedEntry(data, pos) == Ok(Read(es[0].name, next))
    ensures AllReadable(es[1..]) && At(data, next, EntriesBytes(es[1..]))
  {
    var tableAt, payloadAt;
    tableAt, payloadAt, next := FirstEntryRead(data, pos, es);
    ListedEntryOf(data, pos, es[0], tableAt, payloadAt, next);
  }

  /** The listing loop over written entries lists their paths in order. */
  lemma {:induction false} ListFromAt(data: seq<Byte>, pos: nat, es: seq<Entry>, names: seq<seq<Byte>>)
    requires AllReadable(es) && At(data, pos, EntriesBytes(es))
    ensures ListFrom(data, pos, |es|, names) == Ok(names + Names(es))
    decreases |es|
  {
    if es == [] {
      assert names + Names(es) == names;
    } else {
      var next := ListedFirst(data, pos, es);
      var names' := names + [es[0].name];
      ListFromStep(data, pos, |es|, names);
      assert ListFrom(data, pos, |es|, names) == ListFrom(data, next, |es[1..]|, names');
      ListFromAt(data, next, es[1..], names');
      NamesAfter(names, es);
    }
  }

  /** The header of a written archive is read back, and the entries follow it. */
  lemma ArchiveAt(es: seq<Entry>)
    requires AllWritable(es) && |es| <= Int32Max
    ensures ReadFileCount(ArchiveBytes(es)) == Ok(Read(|es|, 4))
    ensures At(ArchiveBytes(es), 4, EntriesBytes(es))
  {
    var data := ArchiveBytes(es);
    AtWhole(data);
    AtSplit(data, 0, Int32Bytes(|es|), EntriesBytes(es));
    ReadFileCountAt(data, |es|);
  }

  /** GetFileListAsync on a written archive lists the stored paths, in the order they were written. */
  lemma FileListRoundTrip(es: seq<Entry>)
    requires AllReadable(es) && |es| <= Int32Max
    ensures FileList(ArchiveBytes(es)) == Ok(Names(es))
  {
    ArchiveAt(es);
    ListFromAt(ArchiveBytes(es), 4, es, []);
    assert [] + Names(es) == Names(es);
  }

  /** DecompressAllAsync reads the header of the first written entry and goes on to decode its payload. */
  lemma FirstDecompressRead(data: seq<Byte>, pos: nat, es: seq<Entry>) returns (payloadAt: nat, next: nat)
    requires es != [] && AllWritable(es) && Readable(es[0]) && At(data, pos, EntriesBytes(es))
    ensures DecompressEntry(data, pos) == DecodeTail(data, payloadAt, es[0].name, es[0].originalSize, es[0].freq)
    ensures ReadPayload(data, payloadAt) == Ok(Read(es[0].packed, next))
    ensures AllWritable(es[1..]) && At(data, next, EntriesBytes(es[1..]))
  {
    var tableAt;
    tableAt, payloadAt, next := FirstFields(data, pos, es);
    DecompressEntryOf(data, pos, es[0], tableAt, payloadAt);
  }

  /** Entries that give back files are written. */
  lemma RestoredWritable(es: seq<Entry>, files: seq<(seq<Byte>, seq<Byte>)>)
    requires AllRestore(es, files)
    ensures AllWritable(es)
  {
    forall i | 0 <= i < |es| ensures Writable(es[i]) {
      assert Restores(es[i], files[i]);
    }
  }

  /** DecompressAllAsync writes the file the first written entry gives back, and goes on where the others start. */
  lemma DecompressedHead(data: seq<Byte>, pos: nat, es: seq<Entry>, files: seq<(seq<Byte>, seq<Byte>)>)
    returns (next: nat)
    requires es != [] && AllRestore(es, files) && At(data, pos, EntriesBytes(es))
    ensures DecompressEntry(data, pos) == Ok(Read((BaseName(files[0].0), files[0].1), next))
    ensures AllRestore(es[1..], files[1..]) && At(data, next, EntriesBytes(es[1..]))
  {
    AllRestoreTail(es, files);
    RestoredWritable(es, files);
    var payloadAt;
    payloadAt, next := FirstDecompressRead(data, pos, es);
    DecodeTailOf(data, payloadAt, es[0], next, files[0].1);
  }

  /** The decompression loop over entries that give back files writes every file back, in order. */
  lemma {:induction false} DecompressFromAt(data: seq<Byte>, pos: nat, es: seq<Entry>, files: seq<(seq<Byte>, seq<Byte>)>,
                                            outputs: seq<(seq<Byte>, seq<Byte>)>)
    requires AllRestore(es, files) && At(data, pos, EntriesBytes(es))
    ensures DecompressFrom(data, pos, |es|, outputs) == Ok(outputs + BaseNamed(files))
    decreases |es|
  {
    if es == [] {
      assert outputs + BaseNamed(files) == outputs;
    } else {
      var next := DecompressedHead(data, pos, es, files);
      var outputs' := outputs + [(BaseName(files[0].0), files[0].1)];
      DecompressFromStep(data, pos, |es|, outputs);
      assert DecompressFrom(data, pos, |es|, outputs) == DecompressFrom(data, next, |es[1..]|, outputs');
      DecompressFromAt(data, next, es[1..], files[1..], outputs');
      BaseNamedCons(files, outputs);
    }
  }

  /**
   * Archive round trip: when CompressFilesAsync makes entries that fit
   * their fields, DecompressAllAsync on the archive it writes gives back
   * every file, byte for byte, in input order, each under the base name of
   * its stored path.
   */
  lemma DecompressRoundTrip(files: seq<(seq<Byte>, seq<Byte>)>, es: seq<Entry>)
    requires CompressAll(files) == Ok(es) && AllWritable(es) && |es| <= Int32Max
    ensures DecompressedFiles(ArchiveBytes(es)) == Ok(BaseNamed(files))
  {
    CompressedRestores(files, es);
    ArchiveAt(es);
    DecompressFromAt(ArchiveBytes(es), 4, es, files, []);
    assert [] + BaseNamed(files) == BaseNamed(files);
  }

  /** ReadEntry reads the first written entry back, and the others start where it ends. */
  lemma FirstEntryReadBack(data: seq<Byte>, pos: nat, es: seq<Entry>) returns (next: nat)
    requires es != [] && AllWritable(es) && Readable(es[0]) && At(data, pos, EntriesBytes(es))
    ensures ReadEntry(data, pos) == Ok(Read(es[0], next))
    ensures AllWritable(es[1..]) && At(data, next, EntriesBytes(es[1..]))
  {
    var tableAt, payloadAt;
    tableAt, payloadAt, next := FirstFields(data, pos, es);
    ReadEntryOf(data, pos, es[0], tableAt, payloadAt, next);
  }

  /**
   * The search reads the first written entry back; it gives back that
   * entry's file when the base name matches and goes on where the others
   * start when it differs.
   */
  lemma ExtractFromFirst(data: seq<Byte>, pos: nat, es: seq<Entry>, files: seq<(seq<Byte>, seq<Byte>)>, requested: seq<Byte>)
    returns (next: nat)
    requires es != [] && AllRestore(es, files) && At(data, pos, EntriesBytes(es))
    ensures SameFileName(files[0].0, requested) ==> ExtractFrom(data, pos, |es|, requested) == Ok(Some(files[0].1))
    ensures !SameFileName(files[0].0, requested)
      ==> ExtractFrom(data, pos, |es|, requested) == ExtractFrom(data, next, |es[1..]|, requested)
    ensures AllRestore(es[1..], files[1..]) && At(data, next, EntriesBytes(es[1..]))
  {
    AllRestoreTail(es, files);
    RestoredWritable(es, files);
    next := FirstEntryReadBack(data, pos, es);
    ExtractFromStep(data, pos, |es|, requested);
  }

  /** The search over entries that give back files finds the first file whose base name matches. */
  lemma {:induction false} ExtractFromAt(data: seq<Byte>, pos: nat, es: seq<Entry>, files: seq<(seq<Byte>, seq<Byte>)>,
                                         requested: seq<Byte>)
    requires AllRestore(es, files) && At(data, pos, EntriesBytes(es))
    ensures ExtractFrom(data, pos, |es|, requested) == Ok(FirstMatch(files, MatchesFile(requested)))
    decreases |es|
  {
    if es != [] {
      var next := ExtractFromFirst(data, pos, es, files, requested);
      if !SameFileName(files[0].0, requested) {
        ExtractFromAt(data, next, es[1..], files[1..], requested);
      }
    }
  }

  /**
   * ExtractSingleFileAsync on the archive of `files` writes the first file
   * whose base name matches the requested one, ignoring case, and returns
   * false when none does.
   */
  lemma ExtractRoundTrip(files: seq<(seq<Byte>, seq<Byte>)>, es: seq<Entry>, requested: seq<Byte>)
    requires CompressAll(files) == Ok(es) && AllWritable(es) && |es| <= Int32Max
    ensures ExtractedFile(ArchiveBytes(es), requested) == Ok(FirstMatch(files, MatchesFile(requested)))
  {
    CompressedRestores(files, es);
    ArchiveAt(es);
    ExtractFromAt(ArchiveBytes(es), 4, es, files, requested);
  }

  /**
   * Picked files archived by CompressFilesAsync list their base names, and
   * decompress to themselves under those names when no base name starts
   * with a drive.
   */
  lemma PickedFilesRoundTrip(files: seq<(seq<Byte>, seq<Byte>)>, es: seq<Entry>)
    requires CompressAll(BaseNamed(files)) == Ok(es) && AllWritable(es) && |es| <= Int32Max
    requires forall i :: 0 <= i < |files| ==> !HasDrive(BaseName(files[i].0))
    ensures FileList(ArchiveBytes(es)) == Ok(Names(es))
    ensures |Names(es)| == |files| && forall i :: 0 <= i < |files| ==> Names(es)[i] == BaseName(files[i].0)
    ensures DecompressedFiles(ArchiveBytes(es)) == Ok(BaseNamed(files))
  {
    var named := BaseNamed(files);
    CompressedRestores(named, es);
    forall i | 0 <= i < |es| ensures Readable(es[i]) && Names(es)[i] == BaseName(files[i].0) {
      assert Restores(es[i], named[i]);
    }
    FileListRoundTrip(es);
    DecompressRoundTrip(named, es);
    BaseNamedTwice(files);
  }
}
