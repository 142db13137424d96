/*
 * The Shannon-Fano archive: what its CompressFilesAsync and
 * CompressFolderAsync write, and how its GetFileListAsync,
 * DecompressAllAsync and ExtractSingleFileAsync read it back. An entry is
 * the stored path, the original size, the code table as (byte, code
 * string) records in dictionary order, and the packed codes. Unlike the
 * Huffman archive, the table records have no fixed size: a code is written
 * with BinaryWriter.Write(string), its length in 7-bit groups first.
 */
module ShannonFanoArchive {
  import opened Common
  import opened BitPacker
  import opened Frequency
  import opened ShannonFano
  import opened BinaryFormat
  import opened ArchiveNames
  import opened ArchiveFormat

  /** One entry: the path bytes, the input length, the code table, the packed codes. */
  datatype Entry = Entry(name: seq<Byte>, originalSize: int, table: seq<(Byte, string)>, packed: seq<Byte>)

  /** Every code is an ASCII string whose length, like the record count, fits an int32. */
  predicate CodesFit(table: seq<(Byte, string)>) {
    |table| <= Int32Max && forall i :: 0 <= i < |table| ==> IsAscii(table[i].1) && |table[i].1| <= Int32Max
  }

  /** Every length and count of the entry fits its int32 field, and the path is not empty. */
  predicate Writable(e: Entry) {
    0 < |e.name| <= Int32Max && IsInt32(e.originalSize) && CodesFit(e.table) && |e.packed| <= Int32Max
  }

  predicate AllWritable(es: seq<Entry>) {
    forall i :: 0 <= i < |es| ==> Writable(es[i])
  }

  /*
   * Compression: the loop of CompressFilesAsync, before the entries are written.
   */

  /** The entry of one input file: ShannonFano.Compress gives the code table and the packed codes. */
  function CompressEntry(name: seq<Byte>, input: seq<Byte>): (e: Entry)
    ensures e.name == name && e.originalSize == |input|
    ensures |e.table| == |FrequencyTable(input)| && (input == [] <==> e.packed == [])
  {
    Entry(name, |input|, CodeTableOf(input), Payload(input))
  }

  /** The input's codes, joined and packed eight to a byte: nothing exactly when the input is empty. */
  function Payload(input: seq<Byte>): (p: seq<Byte>)
    ensures input == [] <==> p == []
  {
    CodeTableEncodes(input);
    PayloadFacts(input);
    Pack(Encode(input, ToMap(CodeTableOf(input))))
  }

  /** A non-empty input encodes to at least its first byte's code, which is never empty. */
  lemma PayloadFacts(input: seq<Byte>)
    ensures Covers(ToMap(CodeTableOf(input)), input)
    ensures input != [] ==> Encode(input, ToMap(CodeTableOf(input))) != ""
  {
    CodeTableEncodes(input);
    if input != [] {
      var table := CodeTableOf(input);
      CodeTableKeys(input);
      CodeTableCodes(input);
      TableMapPrefixFree(table);
      var code := ToMap(table)[input[0]];
      assert IsPrefix(code, Encode(input, ToMap(table)));
    }
  }

  /** The payload of an entry decodes, with its table and original size, back to the input. */
  lemma CompressEntryDecodes(name: seq<Byte>, input: seq<Byte>)
    ensures var e := CompressEntry(name, input); Decompressed(e.packed, e.table, e.originalSize) == Ok(input)
  {
    ShannonFanoRoundTrip(input);
  }

  /** The loop body of CompressFilesAsync for one file: the entry is named by the path's base name. */
  method CompressFile(path: seq<Byte>, input: seq<Byte>) returns (e: Entry)
    ensures e == CompressEntry(BaseName(path), input)
  {
    var compressedData, codeTable := Compress(input);
    var name := BaseName(path);
    return Entry(name, |input|, codeTable, compressedData);
  }

  /** The entries of the (stored name, contents) pairs, in input order. */
  function CompressAll(files: seq<(seq<Byte>, seq<Byte>)>): (es: seq<Entry>)
    ensures |es| == |files|
    ensures forall i :: 0 <= i < |files| ==> es[i].name == files[i].0 && es[i].originalSize == |files[i].1|
  {
    MapSeq(EntryOf, files)
  }

  /** The entry of one (stored name, contents) pair. */
  function EntryOf(file: (seq<Byte>, seq<Byte>)): (e: Entry)
    ensures e.name == file.0 && e.originalSize == |file.1|
  {
    CompressEntry(file.0, file.1)
  }

  /**
   * The compression loop of CompressFilesAsync over the picked (path, contents)
   * pairs: one entry per file, in order, named by the path's base name.
   */
  method CompressFiles(files: seq<(seq<Byte>, seq<Byte>)>) returns (es: seq<Entry>)
    ensures es == CompressAll(BaseNamed(files))
  {
    ghost var named := BaseNamed(files);
    es := [];
    for i := 0 to |files|
      invariant es == CompressAll(named[..i])
    {
      var e := CompressFile(files[i].0, files[i].1);
      CompressAllSnoc(named, i);
      es := es + [e];
    }
    assert named[..|files|] == named;
  }

  /** The entries of the first `i + 1` files: those of the first `i`, then that of file `i`. */
  lemma CompressAllSnoc(files: seq<(seq<Byte>, seq<Byte>)>, i: nat)
    requires i < |files|
    ensures CompressAll(files[..i + 1]) == CompressAll(files[..i]) + [CompressEntry(files[i].0, files[i].1)]
  {
    MapSeqSnoc(EntryOf, files, i);
  }

  /** A Shannon-Fano code is a string of '0' and '1' characters, which are ASCII. */
  lemma BitsAreAscii(code: string)
    requires IsBits(code)
    ensures IsAscii(code)
  {
  }

  /** The codes Compress makes are ASCII, so its table can be written with Write(string). */
  lemma CodeTableAscii(input: seq<Byte>)
    ensures forall i :: 0 <= i < |CodeTableOf(input)| ==> IsAscii(CodeTableOf(input)[i].1)
  {
    var table := CodeTableOf(input);
    CodeTableCodes(input);
    forall i | 0 <= i < |table| ensures IsAscii(table[i].1) {
      assert Values(table)[i] == table[i].1;
      BitsAreAscii(table[i].1);
    }
  }

  /*
   * Writing: WriteFileToArchive, after the int32 entry count.
   */

  /** The table records: the byte, then its code with Write(string). */
  function RecordBytes(table: seq<(Byte, string)>): (bs: seq<Byte>)
    requires CodesFit(table)
    ensures |bs| >= 2 * |table|
  {
    if table == [] then []
    else [table[0].0] + (StringBytes(table[0].1) + RecordBytes(table[1..]))
  }

  /** The record count, then the records. */
  function TableBytes(table: seq<(Byte, string)>): (bs: seq<Byte>)
    requires CodesFit(table)
    ensures |bs| >= 4 + 2 * |table| && bs[..4] == Int32Bytes(|table|)
  {
    Int32Bytes(|table|) + RecordBytes(table)
  }

  /** WriteFileToArchive: path, original size, table, payload. */
  function EntryBytes(e: Entry): (bs: seq<Byte>)
    requires Writable(e)
    ensures |bs| >= 16 + |e.name| + |e.packed|
  {
    LengthPrefixed(e.name) + (Int32Bytes(e.originalSize) + (TableBytes(e.table) + LengthPrefixed(e.packed)))
  }

  /** The entries, one after the other. */
  function EntriesBytes(es: seq<Entry>): (bs: seq<Byte>)
    requires AllWritable(es)
    ensures |bs| >= 16 * |es|
    decreases |es|, 1
  {
    if es == [] then [] else FirstEntryThenRest(es)
  }

  /** The first entry, then the others. */
  function FirstEntryThenRest(es: seq<Entry>): (bs: seq<Byte>)
    requires es != [] && AllWritable(es)
    ensures |bs| >= 16 * |es|
    decreases |es|, 0
  {
    EntryBytes(es[0]) + EntriesBytes(es[1..])
  }

  /** The whole archive: the entry count, then every entry in order. */
  function ArchiveBytes(es: seq<Entry>): (bs: seq<Byte>)
    requires AllWritable(es) && |es| <= Int32Max
    ensures |bs| >= 4 + 16 * |es| && bs[..4] == Int32Bytes(|es|)
  {
    Int32Bytes(|es|) + EntriesBytes(es)
  }

  /*
   * Reading.
   */

  /**
   * The record loop from `pos` with `n` records to go, after `table`: a
   * byte and a string, each stored with `codeTable[sym] = code`. A count of
   * zero or less reads nothing.
   */
  function Codes(data: seq<Byte>, pos: nat, n: int, table: seq<(Byte, string)>): (r: Result<Read<seq<(Byte, string)>>>)
    ensures r.Ok? ==> pos <= r.value.next
    decreases n, 1
  {
    if n <= 0 then Ok(Read(table, pos)) else CodeRecord(data, pos, n, table)
  }

  /** One pass of the record loop: the record at `pos` stored, then the loop goes on after it. */
  function CodeRecord(data: seq<Byte>, pos: nat, n: int, table: seq<(Byte, string)>): (r: Result<Read<seq<(Byte, string)>>>)
    requires n > 0
    ensures r.Ok? ==> pos <= r.value.next
    decreases n, 0
  {
    var sym :- ReadByte(data, pos);
    var code :- ReadString(data, sym.next);
    Codes(data, code.next, n - 1, Set(table, sym.value, code.value))
  }

  /** The record loop of GetFileListAsync and of the skipping branch of ExtractSingleFileAsync: every record read, none kept. */
  function SkipFrom(data: seq<Byte>, pos: nat, n: int): (r: Result<nat>)
    ensures r.Ok? ==> pos <= r.value
    decreases n, 1
  {
    if n <= 0 then Ok(pos) else SkipRecord(data, pos, n)
  }

  /** One pass of that loop: the record at `pos` read, then the loop goes on after it. */
  function SkipRecord(data: seq<Byte>, pos: nat, n: int): (r: Result<nat>)
    requires n > 0
    ensures r.Ok? ==> pos <= r.value
    decreases n, 0
  {
    var sym :- ReadByte(data, pos);
    var code :- ReadString(data, sym.next);
    SkipFrom(data, code.next, n - 1)
  }

  /** Skipping the records fails where reading them fails, and stops where reading them stops. */
  lemma {:induction false} SkipFromAgrees(data: seq<Byte>, pos: nat, n: int, table: seq<(Byte, string)>)
    ensures SkipFrom(data, pos, n).Ok? <==> Codes(data, pos, n, table).Ok?
    ensures SkipFrom(data, pos, n).Ok? ==> SkipFrom(data, pos, n).value == Codes(data, pos, n, table).value.next
    ensures SkipFrom(data, pos, n).Err? ==> SkipFrom(data, pos, n).error == Codes(data, pos, n, table).error
    decreases n
  {
    if n > 0 {
      var sym := ReadByte(data, pos);
      if sym.Ok? {
        var code := ReadString(data, sym.value.next);
        if code.Ok? {
          SkipFromAgrees(data, code.value.next, n - 1, Set(table, sym.value.value, code.value.value));
        }
      }
    }
  }

  /** The fields of one entry as DecompressAllAsync reads and checks them. */
  function ReadEntry(data: seq<Byte>, pos: nat): (r: Result<Read<Entry>>)
    ensures r.Ok? ==> pos + 16 <= r.value.next <= |data|
  {
    var name :- ReadName(data, pos);
    var size :- ReadInt32(data, name.next);
    var count :- ReadInt32(data, size.next);
    if count.value < 0 then Err(InvalidTableCount(count.value))
    else
      var table :- Codes(data, count.next, count.value, []);
      var payload :- ReadPayload(data, table.next);
      Ok(Read(Entry(name.value, size.value, table.value, payload.value), payload.next))
  }

  /**
   * The fields of one entry as GetFileListAsync reads them: the record
   * count is not checked, the records are dropped as they are read, and
   * only the path is kept.
   */
  function ListedEntry(data: seq<Byte>, pos: nat): (r: Result<Read<seq<Byte>>>)
    ensures r.Ok? ==> pos + 16 <= r.value.next <= |data|
  {
    var name :- ReadName(data, pos);
    var size :- ReadInt32(data, name.next);
    var count :- ReadInt32(data, size.next);
    var end :- SkipFrom(data, count.next, count.value);
    var payload :- ReadPayload(data, end);
    Ok(Read(name.value, payload.next))
  }

  /** The listing loop from `pos` with `remaining` entries to go, after `names`. */
  function ListFrom(data: seq<Byte>, pos: nat, remaining: int, names: seq<seq<Byte>>): (r: Result<seq<seq<Byte>>>)
    ensures r.Ok? ==> |r.value| == |names| + (if remaining <= 0 then 0 else remaining) && r.value[..|names|] == names
    decreases remaining, 1
  {
    if remaining <= 0 then Ok(names) else ListEntry(data, pos, remaining, names)
  }

  /** One pass of the listing loop: the entry at `pos`, its path kept, then the loop goes on after it. */
  function ListEntry(data: seq<Byte>, pos: nat, remaining: int, names: seq<seq<Byte>>): (r: Result<seq<seq<Byte>>>)
    requires remaining > 0
    ensures r.Ok? ==> |r.value| == |names| + remaining && r.value[..|names|] == names
    decreases remaining, 0
  {
    var e :- ListedEntry(data, pos);
    var r := ListFrom(data, e.next, remaining - 1, names + [e.value]);
    assert r.Ok? ==> r.value[..|names|] == r.value[..|names| + 1][..|names|];
    r
  }

  /** GetFileListAsync: the stored path of every entry, in archive order. */
  function FileList(data: seq<Byte>): (r: Result<seq<seq<Byte>>>)
    ensures r.Ok? ==> |data| >= 4 && |r.value| == Int32At(data, 0)
  {
    var n :- ReadFileCount(data);
    ListFrom(data, n.next, n.value, [])
  }

  /** The state invariant of GetFileList's loop; not recursive, as Codes. */
  function Listing(data: seq<Byte>, pos: nat, remaining: int, names: seq<seq<Byte>>): Result<seq<seq<Byte>>> {
    ListFrom(data, pos, remaining, names)
  }

  /**
   * One pass of DecompressAllAsync: the checked fields, then
   * ShannonFano.Decompress of the payload with the table and the size, the
   * output named by the path's base name.
   */
  function DecompressEntry(data: seq<Byte>, pos: nat): (r: Result<Read<(seq<Byte>, seq<Byte>)>>)
    ensures r.Ok? ==> pos + 16 <= r.value.next <= |data| && PlainName(r.value.value.0)
  {
    var e :- ReadEntry(data, pos);
    var bytes :- Decompressed(e.value.packed, e.value.table, e.value.originalSize);
    Ok(Read((BaseName(e.value.name), bytes), e.next))
  }

  /** The loop of DecompressAllAsync from `pos` with `remaining` entries to go, after `outputs`. */
  function DecompressFrom(data: seq<Byte>, pos: nat, remaining: int, outputs: seq<(seq<Byte>, seq<Byte>)>)
    : (r: Result<seq<(seq<Byte>, seq<Byte>)>>)
    ensures r.Ok? ==> |r.value| == |outputs| + (if remaining <= 0 then 0 else remaining) && r.value[..|outputs|] == outputs
    ensures r.Ok? ==> PlainFrom(r.value, |outputs|)
    decreases remaining, 1
  {
    if remaining <= 0 then Ok(outputs) else DecompressNext(data, pos, remaining, outputs)
  }

  /** One pass of that loop: the file of the entry at `pos`, then the loop goes on after it. */
  function DecompressNext(data: seq<Byte>, pos: nat, remaining: int, outputs: seq<(seq<Byte>, seq<Byte>)>)
    : (r: Result<seq<(seq<Byte>, seq<Byte>)>>)
    requires remaining > 0
    ensures r.Ok? ==> |r.value| == |outputs| + remaining && r.value[..|outputs|] == outputs
    ensures r.Ok? ==> PlainFrom(r.value, |outputs|)
    decreases remaining, 0
  {
    var out :- DecompressEntry(data, pos);
    var r := DecompressFrom(data, out.next, remaining - 1, outputs + [out.value]);
    if r.Ok? then OutputsAfter(outputs, out.value, r.value); r else r
  }

  /** DecompressAllAsync: the (file name, bytes) of every file it writes, in order, or the error it throws. */
  function DecompressedFiles(data: seq<Byte>): (r: Result<seq<(seq<Byte>, seq<Byte>)>>)
    ensures r.Ok? ==> |data| >= 4 && |r.value| == Int32At(data, 0)
    ensures r.Ok? ==> PlainFrom(r.value, 0)
  {
    var n :- ReadFileCount(data);
    DecompressFrom(data, n.next, n.value, [])
  }

  /** The state invariant of DecompressAll's loop; not recursive, as Codes. */
  function Decompression(data: seq<Byte>, pos: nat, remaining: int, outputs: seq<(seq<Byte>, seq<Byte>)>)
    : Result<seq<(seq<Byte>, seq<Byte>)>>
  {
    DecompressFrom(data, pos, remaining, outputs)
  }

  /** What one pass of the search of ExtractSingleFileAsync ends with when nothing throws. */
  datatype Step = Found(bytes: seq<Byte>) | Skip(next: nat)

  /**
   * The body of the `try` in ExtractSingleFileAsync. A path whose base name
   * differs: the size, the record count and the records are read, then the
   * payload length, and the stream position is moved past the payload
   * without reading it. A matching path: the records are stored, the
   * payload read, and ShannonFano.Decompress gives the file. Neither branch
   * checks the record count, and the matching branch does not check the
   * payload length either.
   */
  function ExtractStep(data: seq<Byte>, pos: nat, matches: seq<Byte> -> bool): Result<Step>
  {
    var name :- ReadName(data, pos);
    var size :- ReadInt32(data, name.next);
    var count :- ReadInt32(data, size.next);
    if !matches(name.value) then SkipRest(data, count.next, count.value)
    else DecodeRest(data, count.next, count.value, size.value)
  }

  /** A pass that completes read a path, and found the file exactly when `matches` accepts that path. */
  lemma ExtractStepFound(data: seq<Byte>, pos: nat, matches: seq<Byte> -> bool)
    requires ExtractStep(data, pos, matches).Ok?
    ensures ReadName(data, pos).Ok?
    ensures ExtractStep(data, pos, matches).value.Found? <==> matches(ReadName(data, pos).value.value)
  {
  }

  /** The branch of a differing path, after the record count: the records, the payload length, the seek past the payload. */
  function SkipRest(data: seq<Byte>, tableAt: nat, count: int): (r: Result<Step>)
    ensures r.Ok? ==> r.value.Skip?
  {
    var end :- SkipFrom(data, tableAt, count);
    var len :- ReadInt32(data, end);
    if len.next + len.value < 0 then Err(SeekBeforeBegin) else Ok(Skip(len.next + len.value))
  }

  /** The branch of a matching path, after the record count: the records stored, the payload read and decoded. */
  function DecodeRest(data: seq<Byte>, tableAt: nat, count: int, size: int): (r: Result<Step>)
    ensures r.Ok? ==> r.value.Found? && |r.value.bytes| == size
  {
    var table :- Codes(data, tableAt, count, []);
    var len :- ReadInt32(data, table.next);
    var payload :- ReadBytes(data, len.next, len.value);
    var bytes :- Decompressed(payload.value, table.value, size);
    Ok(Found(bytes))
  }

  /** Some entry of `data`, read at its own position, has a path `matches` accepts and decodes to `bytes`. */
  ghost predicate FoundIn(data: seq<Byte>, matches: seq<Byte> -> bool, bytes: seq<Byte>) {
    exists p: nat :: ExtractStep(data, p, matches) == Ok(Found(bytes))
  }

  /**
   * The search from `pos` with `remaining` passes to go. A pass that throws
   * is caught: the position goes back to where the entry started and the
   * next pass reads the same entry again.
   */
  function ExtractFrom(data: seq<Byte>, pos: nat, remaining: int, matches: seq<Byte> -> bool): Option<seq<Byte>>
    decreases remaining, 1
  {
    if remaining <= 0 then None else ExtractNext(data, pos, remaining, matches)
  }

  /** One pass of that search: the outcome of the entry at `pos`, and where the search goes on. */
  function ExtractNext(data: seq<Byte>, pos: nat, remaining: int, matches: seq<Byte> -> bool): Option<seq<Byte>>
    requires remaining > 0
    decreases remaining, 0
  {
    match ExtractStep(data, pos, matches)
    case Err(_) => ExtractFrom(data, pos, remaining - 1, matches)
    case Ok(Found(bytes)) => Some(bytes)
    case Ok(Skip(next)) => ExtractFrom(data, next, remaining - 1, matches)
  }

  /**
   * ExtractSingleFileAsync: the bytes written for the first matching entry
   * (`true`), or None (`false`). Only the entry count, read before the
   * loop, can make it throw.
   */
  function ExtractedFile(data: seq<Byte>, requested: seq<Byte>): (r: Result<Option<seq<Byte>>>)
    ensures r.Err? <==> ReadFileCount(data).Err?
  {
    var n :- ReadFileCount(data);
    Ok(ExtractFrom(data, n.next, n.value, MatchesFile(requested)))
  }

  /** The state invariant of ExtractSingleFile's loop; not recursive, as Codes. */
  function Extraction(data: seq<Byte>, pos: nat, remaining: int, matches: seq<Byte> -> bool): Option<seq<Byte>> {
    ExtractFrom(data, pos, remaining, matches)
  }

  /** Whatever the search returns is the decoded file of an entry whose path `matches` accepts. */
  lemma {:induction false} ExtractFromFound(data: seq<Byte>, pos: nat, remaining: int, matches: seq<Byte> -> bool, bytes: seq<Byte>)
    requires ExtractFrom(data, pos, remaining, matches) == Some(bytes)
    ensures FoundIn(data, matches, bytes)
    decreases remaining
  {
    ExtractFromStep(data, pos, remaining, matches);
    match ExtractStep(data, pos, matches)
    case Err(_) => ExtractFromFound(data, pos, remaining - 1, matches, bytes);
    case Ok(Found(found)) => assert ExtractStep(data, pos, matches) == Ok(Found(bytes));
    case Ok(Skip(next)) => ExtractFromFound(data, next, remaining - 1, matches, bytes);
  }

  /**
   * An entry that throws ends the search with nothing found: every later
   * pass is rewound to it and throws again.
   */
  lemma {:induction false} FailingEntryStopsSearch(data: seq<Byte>, pos: nat, remaining: int, matches: seq<Byte> -> bool)
    requires ExtractStep(data, pos, matches).Err?
    ensures ExtractFrom(data, pos, remaining, matches) == None
    decreases remaining
  {
    if remaining > 0 {
      FailingEntryStopsSearch(data, pos, remaining - 1, matches);
    }
  }

  /** The listing loop with entries to go: the entry at `pos`, then the rest after it. */
  lemma ListFromStep(data: seq<Byte>, pos: nat, remaining: int, names: seq<seq<Byte>>)
    requires remaining > 0
    ensures ListedEntry(data, pos).Err? ==> ListFrom(data, pos, remaining, names) == Err(ListedEntry(data, pos).error)
    ensures ListedEntry(data, pos).Ok?
      ==> ListFrom(data, pos, remaining, names)
          == ListFrom(data, ListedEntry(data, pos).value.next, remaining - 1, names + [ListedEntry(data, pos).value.value])
  {
  }

  /** The decompression loop with entries to go: the file at `pos`, then the rest after it. */
  lemma DecompressFromStep(data: seq<Byte>, pos: nat, remaining: int, outputs: seq<(seq<Byte>, seq<Byte>)>)
    requires remaining > 0
    ensures DecompressEntry(data, pos).Err? ==> DecompressFrom(data, pos, remaining, outputs) == Err(DecompressEntry(data, pos).error)
    ensures DecompressEntry(data, pos).Ok?
      ==> DecompressFrom(data, pos, remaining, outputs)
          == DecompressFrom(data, DecompressEntry(data, pos).value.next, remaining - 1, outputs + [DecompressEntry(data, pos).value.value])
  {
  }

  /** The search with passes to go: the entry at `pos` again after a catch, its file when found, else the rest after it. */
  lemma ExtractFromStep(data: seq<Byte>, pos: nat, remaining: int, matches: seq<Byte> -> bool)
    requires remaining > 0
    ensures ExtractStep(data, pos, matches).Err?
      ==> ExtractFrom(data, pos, remaining, matches) == ExtractFrom(data, pos, remaining - 1, matches)
    ensures ExtractStep(data, pos, matches).Ok? && ExtractStep(data, pos, matches).value.Found?
      ==> ExtractFrom(data, pos, remaining, matches) == Some(ExtractStep(data, pos, matches).value.bytes)
    ensures ExtractStep(data, pos, matches).Ok? && ExtractStep(data, pos, matches).value.Skip?
      ==> ExtractFrom(data, pos, remaining, matches)
          == ExtractFrom(data, ExtractStep(data, pos, matches).value.next, remaining - 1, matches)
  {
  }

  /*
   * The reading loops.
   */

  /** The `for (j < codeTableSize)` loop that stores each record: ReadByte, ReadString, `codeTable[symbol] = code`. */
  method ReadCodeRecords(data: seq<Byte>, pos: nat, count: int) returns (r: Result<Read<seq<(Byte, string)>>>)
    ensures r == Codes(data, pos, count, [])
  {
    var codeTable: seq<(Byte, string)> := [];
    var p := pos;
    var j := 0;
    ghost var goal := Codes(data, pos, count, []);
    while j < count
      invariant 0 <= j && (j == 0 || j <= count)
      invariant Codes(data, p, count - j, codeTable) == goal
      decreases count - j
    {
      var symbol := ReadByte(data, p);
      if symbol.Err? {
        return Err(symbol.error);
      }
      var code := ReadString(data, symbol.value.next);
      if code.Err? {
        return Err(code.error);
      }
      codeTable := Set(codeTable, symbol.value.value, code.value.value);
      p := code.value.next;
      j := j + 1;
    }
    return Ok(Read(codeTable, p));
  }

  /** The same loop where each record is read and dropped. */
  method SkipCodeRecords(data: seq<Byte>, pos: nat, count: int) returns (r: Result<nat>)
    ensures r == SkipFrom(data, pos, count)
  {
    var p := pos;
    var j := 0;
    ghost var goal := SkipFrom(data, pos, count);
    while j < count
      invariant 0 <= j && (j == 0 || j <= count)
      invariant SkipFrom(data, p, count - j) == goal
      decreases count - j
    {
      var symbol := ReadByte(data, p);
      if symbol.Err? {
        return Err(symbol.error);
      }
      var code := ReadString(data, symbol.value.next);
      if code.Err? {
        return Err(code.error);
      }
      p := code.value.next;
      j := j + 1;
    }
    return Ok(p);
  }

  /** One pass of the loop of GetFileListAsync: every field read, the path kept. */
  method SkipEntry(data: seq<Byte>, pos: nat) returns (r: Result<Read<seq<Byte>>>)
    ensures r == ListedEntry(data, pos)
  {
    var name := ReadName(data, pos);
    if name.Err? {
      return Err(name.error);
    }
    var size := ReadInt32(data, name.value.next);
    if size.Err? {
      return Err(size.error);
    }
    var codeTableSize := ReadInt32(data, size.value.next);
    if codeTableSize.Err? {
      return Err(codeTableSize.error);
    }
    var afterTable := SkipCodeRecords(data, codeTableSize.value.next, codeTableSize.value.value);
    if afterTable.Err? {
      return Err(afterTable.error);
    }
    var payload := ReadPayload(data, afterTable.value);
    if payload.Err? {
      return Err(payload.error);
    }
    return Ok(Read(name.value.value, payload.value.next));
  }

  /** One pass of the loop of GetFileListAsync: the path of the entry at `pos`, and where the next one starts. */
  method ListPass(data: seq<Byte>, pos: nat, ghost remaining: int, names: seq<seq<Byte>>) returns (r: Result<Read<seq<Byte>>>)
    requires remaining > 0
    ensures r.Err? ==> Listing(data, pos, remaining, names) == Err(r.error)
    ensures r.Ok? ==> Listing(data, r.value.next, remaining - 1, names + [r.value.value]) == Listing(data, pos, remaining, names)
  {
    ListFromStep(data, pos, remaining, names);
    r := SkipEntry(data, pos);
  }

  /** GetFileListAsync. */
  method GetFileList(data: seq<Byte>) returns (r: Result<seq<seq<Byte>>>)
    ensures r == FileList(data)
  {
    var header := ReadFileCount(data);
    if header.Err? {
      return Err(header.error);
    }
    var fileCount := header.value.value;
    var pos := header.value.next;
    var fileList: seq<seq<Byte>> := [];
    ghost var remaining := fileCount;
    ghost var goal := FileList(data);
    for i := 0 to fileCount
      invariant remaining == fileCount - i
      invariant Listing(data, pos, remaining, fileList) == goal
    {
      var entry := ListPass(data, pos, remaining, fileList);
      if entry.Err? {
        return Err(entry.error);
      }
      fileList := fileList + [entry.value.value];
      pos := entry.value.next;
      remaining := remaining - 1;
    }
    return Ok(fileList);
  }

  /** The fields of one entry as the loop of DecompressAllAsync reads and checks them. */
  method ReadEntryFields(data: seq<Byte>, pos: nat) returns (r: Result<Read<Entry>>)
    ensures r == ReadEntry(data, pos)
  {
    var name := ReadName(data, pos);
    if name.Err? {
      return Err(name.error);
    }
    var size := ReadInt32(data, name.value.next);
    if size.Err? {
      return Err(size.error);
    }
    var freqCount := ReadInt32(data, size.value.next);
    if freqCount.Err? {
      return Err(freqCount.error);
    }
    if freqCount.value.value < 0 {
      return Err(InvalidTableCount(freqCount.value.value));
    }
    var codeTable := ReadCodeRecords(data, freqCount.value.next, freqCount.value.value);
    if codeTable.Err? {
      return Err(codeTable.error);
    }
    var payload := ReadPayload(data, codeTable.value.next);
    if payload.Err? {
      return Err(payload.error);
    }
    return Ok(Read(Entry(name.value.value, size.value.value, codeTable.value.value, payload.value.value), payload.value.next));
  }

  /** One pass of the loop of DecompressAllAsync: the checked fields, then ShannonFano.Decompress. */
  method DecompressOne(data: seq<Byte>, pos: nat) returns (r: Result<Read<(seq<Byte>, seq<Byte>)>>)
    ensures r == DecompressEntry(data, pos)
  {
    var e := ReadEntryFields(data, pos);
    if e.Err? {
      return Err(e.error);
    }
    var bytes := Decompress(e.value.value.packed, e.value.value.table, e.value.value.originalSize);
    if bytes.Err? {
      return Err(bytes.error);
    }
    return Ok(Read((BaseName(e.value.value.name), bytes.value), e.value.next));
  }

  /** One pass of the loop of DecompressAllAsync: the file of the entry at `pos`, and where the next one starts. */
  method DecompressPass(data: seq<Byte>, pos: nat, ghost remaining: int, outputs: seq<(seq<Byte>, seq<Byte>)>)
    returns (r: Result<Read<(seq<Byte>, seq<Byte>)>>)
    requires remaining > 0
    ensures r.Err? ==> Decompression(data, pos, remaining, outputs) == Err(r.error)
    ensures r.Ok? ==> Decompression(data, r.value.next, remaining - 1, outputs + [r.value.value]) == Decompression(data, pos, remaining, outputs)
  {
    DecompressFromStep(data, pos, remaining, outputs);
    r := DecompressOne(data, pos);
  }

  /** DecompressAllAsync. */
  method DecompressAll(data: seq<Byte>) returns (r: Result<seq<(seq<Byte>, seq<Byte>)>>)
    ensures r == DecompressedFiles(data)
  {
    var header := ReadFileCount(data);
    if header.Err? {
      return Err(header.error);
    }
    var fileCount := header.value.value;
    var pos := header.value.next;
    var outputs: seq<(seq<Byte>, seq<Byte>)> := [];
    ghost var remaining := fileCount;
    ghost var goal := DecompressedFiles(data);
    for i := 0 to fileCount
      invariant remaining == fileCount - i
      invariant Decompression(data, pos, remaining, outputs) == goal
    {
      var out := DecompressPass(data, pos, remaining, outputs);
      if out.Err? {
        return Err(out.error);
      }
      outputs := outputs + [out.value.value];
      pos := out.value.next;
      remaining := remaining - 1;
    }
    return Ok(outputs);
  }

  /** The `try` body of ExtractSingleFileAsync for the entry at `pos`, in the source's order of reads. */
  method TryEntry(data: seq<Byte>, pos: nat, requested: seq<Byte>) returns (r: Result<Step>)
    ensures r == ExtractStep(data, pos, MatchesFile(requested))
  {
    var filenameLen := ReadName(data, pos);
    if filenameLen.Err? {
      return Err(filenameLen.error);
    }
    var filename := filenameLen.value.value;
    var size := ReadInt32(data, filenameLen.value.next);
    if size.Err? {
      return Err(size.error);
    }
    var tableSize := ReadInt32(data, size.value.next);
    if tableSize.Err? {
      return Err(tableSize.error);
    }
    if !SameFileName(filename, requested) {
      var end := SkipCodeRecords(data, tableSize.value.next, tableSize.value.value);
      if end.Err? {
        return Err(end.error);
      }
      var compressedSize := ReadInt32(data, end.value);
      if compressedSize.Err? {
        return Err(compressedSize.error);
      }
      var position := compressedSize.value.next + compressedSize.value.value;
      if position < 0 {
        return Err(SeekBeforeBegin);
      }
      return Ok(Skip(position));
    }
    var codeTable := ReadCodeRecords(data, tableSize.value.next, tableSize.value.value);
    if codeTable.Err? {
      return Err(codeTable.error);
    }
    var compressedDataLength := ReadInt32(data, codeTable.value.next);
    if compressedDataLength.Err? {
      return Err(compressedDataLength.error);
    }
    var compressedData := ReadBytes(data, compressedDataLength.value.next, compressedDataLength.value.value);
    if compressedData.Err? {
      return Err(compressedData.error);
    }
    var bytes := Decompress(compressedData.value.value, codeTable.value.value, size.value.value);
    if bytes.Err? {
      return Err(bytes.error);
    }
    return Ok(Found(bytes.value));
  }

  /**
   * One pass of the loop of ExtractSingleFileAsync: the bytes of the entry
   * at `pos` when it matches (`found`), else the position `next` of the
   * next pass: after the entry, or the entry itself again after a catch.
   */
  method ExtractPass(data: seq<Byte>, pos: nat, ghost remaining: int, requested: seq<Byte>)
    returns (found: Option<seq<Byte>>, next: nat)
    requires remaining > 0
    ensures found.Some? ==> found == Extraction(data, pos, remaining, MatchesFile(requested))
    ensures found.None?
      ==> Extraction(data, next, remaining - 1, MatchesFile(requested)) == Extraction(data, pos, remaining, MatchesFile(requested))
  {
    ExtractFromStep(data, pos, remaining, MatchesFile(requested));
    var step := TryEntry(data, pos, requested);
    if step.Err? {
      return None, pos;
    }
    match step.value
    case Found(bytes) => return Some(bytes), pos;
    case Skip(after) => return None, after;
  }

  /** The loop of ExtractSingleFileAsync: `count` passes from `pos`, stopping at the first file found. */
  method Search(data: seq<Byte>, pos: nat, count: int, requested: seq<Byte>) returns (found: Option<seq<Byte>>)
    ensures found == Extraction(data, pos, count, MatchesFile(requested))
  {
    var p := pos;
    ghost var remaining := count;
    for i := 0 to if count < 0 then 0 else count
      invariant remaining == count - i
      invariant Extraction(data, p, remaining, MatchesFile(requested)) == Extraction(data, pos, count, MatchesFile(requested))
    {
      var f, next := ExtractPass(data, p, remaining, requested);
      if f.Some? {
        return f;
      }
      p := next;
      remaining := remaining - 1;
    }
    return None;
  }

  /** ExtractSingleFileAsync. */
  method ExtractSingleFile(data: seq<Byte>, requested: seq<Byte>) returns (r: Result<Option<seq<Byte>>>)
    ensures r == ExtractedFile(data, requested)
  {
    var header := ReadFileCount(data);
    if header.Err? {
      return Err(header.error);
    }
    var found := Search(data, header.value.next, header.value.value, requested);
    return Ok(found);
  }

  /*
   * Reading back what was written.
   */

  /** One record read: its byte and its code stored, then the rest of the records. */
  lemma CodesStep(data: seq<Byte>, pos: nat, n: int, acc: seq<(Byte, string)>, k: Byte, code: string, next: nat)
    requires n > 0 && ReadByte(data, pos) == Ok(Read(k, pos + 1)) && ReadString(data, pos + 1) == Ok(Read(code, next))
    ensures Codes(data, pos, n, acc) == Codes(data, next, n - 1, Set(acc, k, code))
  {
  }

  /** The records of a table with distinct keys are read back in order, each stored as a new key. */
  lemma {:induction false} RecordsAt(data: seq<Byte>, pos: nat, table: seq<(Byte, string)>, acc: seq<(Byte, string)>, whole: seq<(Byte, string)>, end: nat)
    requires CodesFit(table) && At(data, pos, RecordBytes(table)) && end == pos + |RecordBytes(table)|
    requires whole == acc + table && NoDuplicates(Keys(whole))
    ensures Codes(data, pos, |table|, acc) == Ok(Read(whole, end))
    decreases |table|
  {
    if table == [] {
      assert whole == acc;
    } else {
      var rest := table[1..];
      var next := RecordAt(data, pos, table, acc);
      var acc' := FreshRecord(acc, table);
      RecordsAt(data, next, rest, acc', whole, end);
      assert Codes(data, pos, |table|, acc) == Codes(data, next, |rest|, acc');
    }
  }

  /** The first record of `table` is a new key after `acc`, so storing it appends it. */
  lemma FreshRecord(acc: seq<(Byte, string)>, table: seq<(Byte, string)>) returns (acc': seq<(Byte, string)>)
    requires table != [] && NoDuplicates(Keys(acc + table))
    ensures acc' == Set(acc, table[0].0, table[0].1) && acc' + table[1..] == acc + table
  {
    var k := table[0].0;
    assert k !in Keys(acc) by {
      KeysAppend(acc, table);
      NoDuplicatesSplit(Keys(acc), Keys(table));
      assert k == Keys(table)[0];
    }
    acc' := acc + [table[0]];
    assert acc' + table[1..] == acc + table;
    SetFresh(acc, k, table[0].1);
  }

  /** The first record of a written table: its byte and its code, then the other records. */
  lemma RecordAt(data: seq<Byte>, pos: nat, table: seq<(Byte, string)>, acc: seq<(Byte, string)>) returns (next: nat)
    requires table != [] && CodesFit(table) && At(data, pos, RecordBytes(table))
    ensures Codes(data, pos, |table|, acc) == Codes(data, next, |table| - 1, Set(acc, table[0].0, table[0].1))
    ensures CodesFit(table[1..]) && At(data, next, RecordBytes(table[1..]))
    ensures next + |RecordBytes(table[1..])| == pos + |RecordBytes(table)|
  {
    var code, rest := table[0].1, table[1..];
    next := pos + 1 + |StringBytes(code)|;
    CodesFitTail(table);
    assert RecordBytes(table) == [table[0].0] + (StringBytes(code) + RecordBytes(rest));
    AtSplit3(data, pos, [table[0].0], StringBytes(code), RecordBytes(rest), pos + 1, next);
    AtByte(data, pos, table[0].0);
    ReadStringAt(data, pos + 1, code);
    CodesStep(data, pos, |table|, acc, table[0].0, code, next);
  }

  /** The records after the first fit their fields too. */
  lemma CodesFitTail(table: seq<(Byte, string)>)
    requires CodesFit(table) && table != []
    ensures CodesFit(table[1..])
  {
    var rest := table[1..];
    forall i | 0 <= i < |rest| ensures IsAscii(rest[i].1) && |rest[i].1| <= Int32Max {
      assert rest[i] == table[i + 1];
    }
  }

  /** Where each field of a written entry occurs, the table records starting at `tableAt` and the payload at `payloadAt`. */
  predicate FieldsAt(data: seq<Byte>, pos: nat, e: Entry, tableAt: nat, payloadAt: nat)
    requires Writable(e)
  {
    && At(data, pos, LengthPrefixed(e.name))
    && At(data, pos + 4 + |e.name|, Int32Bytes(e.originalSize))
    && At(data, pos + 8 + |e.name|, Int32Bytes(|e.table|))
    && tableAt == pos + 12 + |e.name|
    && At(data, tableAt, RecordBytes(e.table))
    && payloadAt == tableAt + |RecordBytes(e.table)|
    && At(data, payloadAt, LengthPrefixed(e.packed))
  }

  /** What the readers give back for the path, the original size and the record count of an entry. */
  predicate HeadRead(data: seq<Byte>, pos: nat, e: Entry, tableAt: nat) {
    && ReadName(data, pos) == Ok(Read(e.name, pos + 4 + |e.name|))
    && ReadInt32(data, pos + 4 + |e.name|) == Ok(Read(e.originalSize, pos + 8 + |e.name|))
    && ReadInt32(data, pos + 8 + |e.name|) == Ok(Read(|e.table|, tableAt))
  }

  /** What the readers give back, field by field, where the fields of an entry occur. */
  predicate FieldsRead(data: seq<Byte>, pos: nat, e: Entry, tableAt: nat, payloadAt: nat) {
    && HeadRead(data, pos, e, tableAt)
    && Codes(data, tableAt, |e.table|, []) == Ok(Read(e.table, payloadAt))
    && SkipFrom(data, tableAt, |e.table|) == Ok(payloadAt)
    && ReadPayload(data, payloadAt) == Ok(Read(e.packed, payloadAt + 4 + |e.packed|))
    && ReadInt32(data, payloadAt) == Ok(Read(|e.packed|, payloadAt + 4))
    && ReadBytes(data, payloadAt + 4, |e.packed|) == Ok(Read(e.packed, payloadAt + 4 + |e.packed|))
  }

  /** The bytes of an entry split into its fields. */
  lemma EntryLayout(data: seq<Byte>, pos: nat, e: Entry) returns (tableAt: nat, payloadAt: nat)
    requires Writable(e) && At(data, pos, EntryBytes(e))
    ensures FieldsAt(data, pos, e, tableAt, payloadAt)
    ensures payloadAt + 4 + |e.packed| == pos + |EntryBytes(e)|
  {
    var name, size, payload := LengthPrefixed(e.name), Int32Bytes(e.originalSize), LengthPrefixed(e.packed);
    var count, records := Int32Bytes(|e.table|), RecordBytes(e.table);
    tableAt := pos + 12 + |e.name|;
    payloadAt := tableAt + |records|;
    assert EntryBytes(e) == name + (size + ((count + records) + payload));
    AtSplit5(data, pos, name, size, count, records, payload, pos + 4 + |e.name|, pos + 8 + |e.name|, tableAt, payloadAt);
  }

  /** A written entry: its fields fit, and its table, a Dictionary in the source, has distinct keys. */
  predicate Readable(e: Entry) {
    Writable(e) && NoDuplicates(Keys(e.table))
  }

  /** Each field of a written entry is read back where it was written. */
  lemma FieldsReadBack(data: seq<Byte>, pos: nat, e: Entry, tableAt: nat, payloadAt: nat)
    requires Readable(e) && FieldsAt(data, pos, e, tableAt, payloadAt)
    ensures FieldsRead(data, pos, e, tableAt, payloadAt)
  {
    NameReadBack(data, pos, e, tableAt, payloadAt);
    SizeReadBack(data, pos, e, tableAt, payloadAt);
    CountReadBack(data, pos, e, tableAt, payloadAt);
    RecordsReadBack(data, tableAt, e.table, payloadAt);
    PayloadReadBack(data, pos, e, tableAt, payloadAt);
  }

  /** The path of a written entry is read back. */
  lemma NameReadBack(data: seq<Byte>, pos: nat, e: Entry, tableAt: nat, payloadAt: nat)
    requires Readable(e) && FieldsAt(data, pos, e, tableAt, payloadAt)
    ensures ReadName(data, pos) == Ok(Read(e.name, pos + 4 + |e.name|))
  {
    ReadNameAt(data, pos, e.name);
  }

  /** The original size of a written entry is read back. */
  lemma SizeReadBack(data: seq<Byte>, pos: nat, e: Entry, tableAt: nat, payloadAt: nat)
    requires Readable(e) && FieldsAt(data, pos, e, tableAt, payloadAt)
    ensures ReadInt32(data, pos + 4 + |e.name|) == Ok(Read(e.originalSize, pos + 8 + |e.name|))
  {
    ReadInt32At(data, pos + 4 + |e.name|, e.originalSize);
  }

  /** The record count of a written entry is read back. */
  lemma CountReadBack(data: seq<Byte>, pos: nat, e: Entry, tableAt: nat, payloadAt: nat)
    requires Readable(e) && FieldsAt(data, pos, e, tableAt, payloadAt)
    ensures ReadInt32(data, pos + 8 + |e.name|) == Ok(Read(|e.table|, tableAt))
  {
    ReadInt32At(data, pos + 8 + |e.name|, |e.table|);
  }

  /** The code table of a written entry is read back record by record, and skipped to the same place. */
  lemma RecordsReadBack(data: seq<Byte>, tableAt: nat, table: seq<(Byte, string)>, payloadAt: nat)
    requires CodesFit(table) && NoDuplicates(Keys(table)) && At(data, tableAt, RecordBytes(table))
    requires payloadAt == tableAt + |RecordBytes(table)|
    ensures Codes(data, tableAt, |table|, []) == Ok(Read(table, payloadAt))
    ensures SkipFrom(data, tableAt, |table|) == Ok(payloadAt)
  {
    assert [] + table == table;
    RecordsAt(data, tableAt, table, [], table, payloadAt);
    var codes := Codes(data, tableAt, |table|, []);
    assert codes.Ok? && codes.value.next == payloadAt;
    SkipFromAgrees(data, tableAt, |table|, []);
  }

  /** The payload of a written entry is read back, by ReadPayload and by its two reads. */
  lemma PayloadReadBack(data: seq<Byte>, pos: nat, e: Entry, tableAt: nat, payloadAt: nat)
    requires Readable(e) && FieldsAt(data, pos, e, tableAt, payloadAt)
    ensures ReadPayload(data, payloadAt) == Ok(Read(e.packed, payloadAt + 4 + |e.packed|))
    ensures ReadInt32(data, payloadAt) == Ok(Read(|e.packed|, payloadAt + 4))
    ensures ReadBytes(data, payloadAt + 4, |e.packed|) == Ok(Read(e.packed, payloadAt + 4 + |e.packed|))
  {
    ReadPayloadAt(data, payloadAt, e.packed);
    LengthPrefixedAt(data, payloadAt, e.packed);
  }

  /** DecompressAllAsync gives back the file of an entry whose fields are read back. */
  lemma DecompressEntryOf(data: seq<Byte>, pos: nat, e: Entry, tableAt: nat, payloadAt: nat, next: nat, bytes: seq<Byte>)
    requires FieldsRead(data, pos, e, tableAt, payloadAt) && next == payloadAt + 4 + |e.packed|
    requires Decompressed(e.packed, e.table, e.originalSize) == Ok(bytes)
    ensures ReadEntry(data, pos) == Ok(Read(e, next))
    ensures DecompressEntry(data, pos) == Ok(Read((BaseName(e.name), bytes), next))
  {
    ReadEntryOf(data, pos, e, tableAt, payloadAt, next);
  }

  /** DecompressAllAsync reads back the fields of an entry whose fields are read back. */
  lemma ReadEntryOf(data: seq<Byte>, pos: nat, e: Entry, tableAt: nat, payloadAt: nat, next: nat)
    requires HeadRead(data, pos, e, tableAt)
    requires Codes(data, tableAt, |e.table|, []) == Ok(Read(e.table, payloadAt))
    requires ReadPayload(data, payloadAt) == Ok(Read(e.packed, next))
    ensures ReadEntry(data, pos) == Ok(Read(e, next))
  {
    var name := ReadName(data, pos);
    var size := ReadInt32(data, name.value.next);
    var count := ReadInt32(data, size.value.next);
    assert count == Ok(Read(|e.table|, tableAt));
  }

  /** GetFileListAsync reads the path of an entry whose fields are read back, and steps over the rest of it. */
  lemma ListedEntryOf(data: seq<Byte>, pos: nat, e: Entry, tableAt: nat, payloadAt: nat, next: nat)
    requires FieldsRead(data, pos, e, tableAt, payloadAt) && next == payloadAt + 4 + |e.packed|
    ensures ListedEntry(data, pos) == Ok(Read(e.name, next))
  {
    var name := ReadName(data, pos);
    var size := ReadInt32(data, name.value.next);
    var count := ReadInt32(data, size.value.next);
    assert count == Ok(Read(|e.table|, tableAt));
  }

  /** ExtractSingleFileAsync reads the head of such an entry and goes on to skip the rest when its name differs. */
  lemma ExtractHeadSkip(data: seq<Byte>, pos: nat, e: Entry, tableAt: nat, matches: seq<Byte> -> bool)
    requires HeadRead(data, pos, e, tableAt) && !matches(e.name)
    ensures ExtractStep(data, pos, matches) == SkipRest(data, tableAt, |e.table|)
  {
    var name := ReadName(data, pos);
    var size := ReadInt32(data, name.value.next);
    var count := ReadInt32(data, size.value.next);
    assert name == Ok(Read(e.name, pos + 4 + |e.name|)) && !matches(name.value.value);
    assert count == Ok(Read(|e.table|, tableAt));
    assert ExtractStep(data, pos, matches) == SkipRest(data, count.value.next, count.value.value);
  }

  /** ExtractSingleFileAsync reads the head of such an entry and goes on to decode the rest when its name matches. */
  lemma ExtractHeadFound(data: seq<Byte>, pos: nat, e: Entry, tableAt: nat, matches: seq<Byte> -> bool)
    requires HeadRead(data, pos, e, tableAt) && matches(e.name)
    ensures ExtractStep(data, pos, matches) == DecodeRest(data, tableAt, |e.table|, e.originalSize)
  {
    var name := ReadName(data, pos);
    var size := ReadInt32(data, name.value.next);
    var count := ReadInt32(data, size.value.next);
    assert name == Ok(Read(e.name, pos + 4 + |e.name|)) && matches(name.value.value);
    assert count == Ok(Read(|e.table|, tableAt));
    assert ExtractStep(data, pos, matches) == DecodeRest(data, count.value.next, count.value.value, size.value.value);
  }

  /** ExtractSingleFileAsync moves past such an entry when its name differs from the one asked for. */
  lemma ExtractSkipOf(data: seq<Byte>, pos: nat, e: Entry, tableAt: nat, payloadAt: nat, next: nat, matches: seq<Byte> -> bool)
    requires HeadRead(data, pos, e, tableAt) && SkipFrom(data, tableAt, |e.table|) == Ok(payloadAt)
    requires ReadInt32(data, payloadAt) == Ok(Read(|e.packed|, payloadAt + 4)) && next == payloadAt + 4 + |e.packed|
    requires !matches(e.name)
    ensures ExtractStep(data, pos, matches) == Ok(Skip(next))
  {
    ExtractHeadSkip(data, pos, e, tableAt, matches);
    SkipRestOf(data, tableAt, |e.table|, payloadAt, |e.packed|);
  }

  /** The differing branch steps over a table and payload that are read back. */
  lemma SkipRestOf(data: seq<Byte>, tableAt: nat, count: int, payloadAt: nat, len: nat)
    requires SkipFrom(data, tableAt, count) == Ok(payloadAt)
    requires ReadInt32(data, payloadAt) == Ok(Read(len, payloadAt + 4))
    ensures SkipRest(data, tableAt, count) == Ok(Skip(payloadAt + 4 + len))
  {
  }

  /** ExtractSingleFileAsync decodes the payload of such an entry when its name matches. */
  lemma ExtractFoundOf(data: seq<Byte>, pos: nat, e: Entry, tableAt: nat, payloadAt: nat, matches: seq<Byte> -> bool, bytes: seq<Byte>)
    requires FieldsRead(data, pos, e, tableAt, payloadAt) && matches(e.name)
    requires Decompressed(e.packed, e.table, e.originalSize) == Ok(bytes)
    ensures ExtractStep(data, pos, matches) == Ok(Found(bytes))
  {
    ExtractHeadFound(data, pos, e, tableAt, matches);
    DecodeRestOf(data, e, tableAt, payloadAt, bytes);
  }

  /** The matching branch decodes a table and payload that are read back. */
  lemma DecodeRestOf(data: seq<Byte>, e: Entry, tableAt: nat, payloadAt: nat, bytes: seq<Byte>)
    requires Codes(data, tableAt, |e.table|, []) == Ok(Read(e.table, payloadAt))
    requires ReadInt32(data, payloadAt) == Ok(Read(|e.packed|, payloadAt + 4))
    requires ReadBytes(data, payloadAt + 4, |e.packed|) == Ok(Read(e.packed, payloadAt + 4 + |e.packed|))
    requires Decompressed(e.packed, e.table, e.originalSize) == Ok(bytes)
    ensures DecodeRest(data, tableAt, |e.table|, e.originalSize) == Ok(Found(bytes))
  {
  }

  /*
   * The archive of a set of files, read back whole.
   */

  /** Every entry is readable: its fields fit and its table has distinct keys. */
  predicate AllReadable(es: seq<Entry>) {
    forall i :: 0 <= i < |es| ==> Readable(es[i])
  }

  /** The stored paths of the entries, in archive order. */
  function Names(es: seq<Entry>): (names: seq<seq<Byte>>)
    ensures |names| == |es| && forall i :: 0 <= i < |es| ==> names[i] == es[i].name
  {
    seq(|es|, i requires 0 <= i < |es| => es[i].name)
  }

  /** The names listed so far and the first entry's path, then the other paths: all the paths. */
  lemma NamesAfter(names: seq<seq<Byte>>, es: seq<Entry>)
    requires es != []
    ensures (names + [es[0].name]) + Names(es[1..]) == names + Names(es)
  {
    var listed, all := (names + [es[0].name]) + Names(es[1..]), names + Names(es);
    assert |listed| == |all|;
    forall k | 0 <= k < |all| ensures listed[k] == all[k] {
      if k > |names| {
        assert es[1..][k - |names| - 1] == es[k - |names|];
      }
    }
  }

  /** Where the entries are written, the first entry is written, and the others right after it. */
  lemma EntriesAt(data: seq<Byte>, pos: nat, es: seq<Entry>) returns (next: nat)
    requires es != [] && AllWritable(es) && At(data, pos, EntriesBytes(es))
    ensures AllWritable(es[1..]) && next == pos + |EntryBytes(es[0])|
    ensures At(data, pos, EntryBytes(es[0])) && At(data, next, EntriesBytes(es[1..]))
  {
    assert AllWritable(es[1..]) by {
      forall i | 0 <= i < |es[1..]| ensures Writable(es[1..][i]) {
        assert es[1..][i] == es[i + 1];
      }
    }
    assert EntriesBytes(es) == EntryBytes(es[0]) + EntriesBytes(es[1..]);
    AtSplit(data, pos, EntryBytes(es[0]), EntriesBytes(es[1..]));
    next := pos + |EntryBytes(es[0])|;
  }

  /** The fields of the first entry are read back, and the entry ends where the next one starts. */
  lemma FirstEntryRead(data: seq<Byte>, pos: nat, es: seq<Entry>) returns (tableAt: nat, payloadAt: nat, next: nat)
    requires es != [] && AllReadable(es) && At(data, pos, EntriesBytes(es))
    ensures FieldsRead(data, pos, es[0], tableAt, payloadAt) && next == payloadAt + 4 + |es[0].packed|
    ensures AllReadable(es[1..]) && At(data, next, EntriesBytes(es[1..]))
  {
    next := EntriesAt(data, pos, es);
    tableAt, payloadAt := EntryLayout(data, pos, es[0]);
    FieldsReadBack(data, pos, es[0], tableAt, payloadAt);
    assert AllReadable(es[1..]) by {
      forall i | 0 <= i < |es[1..]| ensures Readable(es[1..][i]) {
        assert es[1..][i] == es[i + 1];
      }
    }
  }

  /** GetFileListAsync lists the path of the first written entry and goes on where the others start. */
  lemma ListedFirst(data: seq<Byte>, pos: nat, es: seq<Entry>) returns (next: nat)
    requires es != [] && AllReadable(es) && At(data, pos, EntriesBytes(es))
    ensures ListedEntry(data, pos) == Ok(Read(es[0].name, next))
    ensures AllReadable(es[1..]) && At(data, next, EntriesBytes(es[1..]))
  {
    var tableAt, payloadAt;
    tableAt, payloadAt, next := FirstEntryRead(data, pos, es);
    ListedEntryOf(data, pos, es[0], tableAt, payloadAt, next);
  }

  /** DecompressAllAsync writes the file of the first written entry and goes on where the others start. */
  lemma DecompressedHead(data: seq<Byte>, pos: nat, es: seq<Entry>, bytes: seq<Byte>) returns (next: nat)
    requires es != [] && AllReadable(es) && At(data, pos, EntriesBytes(es))
    requires Decompressed(es[0].packed, es[0].table, es[0].originalSize) == Ok(bytes)
    ensures DecompressEntry(data, pos) == Ok(Read((BaseName(es[0].name), bytes), next))
    ensures AllReadable(es[1..]) && At(data, next, EntriesBytes(es[1..]))
  {
    var tableAt, payloadAt;
    tableAt, payloadAt, next := FirstEntryRead(data, pos, es);
    DecompressEntryOf(data, pos, es[0], tableAt, payloadAt, next, bytes);
  }

  /** The search steps over the first written entry when its name differs, going on where the others start. */
  lemma ExtractedSkip(data: seq<Byte>, pos: nat, es: seq<Entry>, matches: seq<Byte> -> bool) returns (next: nat)
    requires es != [] && AllReadable(es) && At(data, pos, EntriesBytes(es)) && !matches(es[0].name)
    ensures ExtractStep(data, pos, matches) == Ok(Skip(next))
    ensures AllReadable(es[1..]) && At(data, next, EntriesBytes(es[1..]))
  {
    var tableAt, payloadAt;
    tableAt, payloadAt, next := FirstEntryRead(data, pos, es);
    ExtractSkipOf(data, pos, es[0], tableAt, payloadAt, next, matches);
  }

  /** The search decodes the first written entry when its name matches, and the others follow it. */
  lemma ExtractedFound(data: seq<Byte>, pos: nat, es: seq<Entry>, matches: seq<Byte> -> bool, bytes: seq<Byte>) returns (next: nat)
    requires es != [] && AllReadable(es) && At(data, pos, EntriesBytes(es)) && matches(es[0].name)
    requires Decompressed(es[0].packed, es[0].table, es[0].originalSize) == Ok(bytes)
    ensures ExtractStep(data, pos, matches) == Ok(Found(bytes))
    ensures AllReadable(es[1..]) && At(data, next, EntriesBytes(es[1..]))
  {
    var tableAt, payloadAt;
    tableAt, payloadAt, next := FirstEntryRead(data, pos, es);
    ExtractFoundOf(data, pos, es[0], tableAt, payloadAt, matches, bytes);
  }

  /** The listing loop over written entries lists their paths in order. */
  lemma {:induction false} ListFromAt(data: seq<Byte>, pos: nat, es: seq<Entry>, names: seq<seq<Byte>>)
    requires AllReadable(es) && At(data, pos, EntriesBytes(es))
    ensures ListFrom(data, pos, |es|, names) == Ok(names + Names(es))
    decreases |es|
  {
    if es == [] {
      assert names + Names(es) == names;
    } else {
      var next := ListedFirst(data, pos, es);
      var names' := names + [es[0].name];
      ListFromStep(data, pos, |es|, names);
      assert ListFrom(data, pos, |es|, names) == ListFrom(data, next, |es[1..]|, names');
      ListFromAt(data, next, es[1..], names');
      NamesAfter(names, es);
    }
  }

  /** The header of a written archive is read back, and the entries follow it. */
  lemma ArchiveAt(es: seq<Entry>)
    requires AllWritable(es) && |es| <= Int32Max
    ensures ReadFileCount(ArchiveBytes(es)) == Ok(Read(|es|, 4))
    ensures At(ArchiveBytes(es), 4, EntriesBytes(es))
  {
    var data := ArchiveBytes(es);
    AtWhole(data);
    AtSplit(data, 0, Int32Bytes(|es|), EntriesBytes(es));
    ReadFileCountAt(data, |es|);
  }

  /** GetFileListAsync on a written archive lists the stored paths, in the order they were written. */
  lemma FileListRoundTrip(es: seq<Entry>)
    requires AllReadable(es) && |es| <= Int32Max
    ensures FileList(ArchiveBytes(es)) == Ok(Names(es))
  {
    ArchiveAt(es);
    ListFromAt(ArchiveBytes(es), 4, es, []);
    assert [] + Names(es) == Names(es);
  }

  /** The entries of compressed files are readable whenever they are writable. */
  lemma CompressedReadable(files: seq<(seq<Byte>, seq<Byte>)>)
    requires AllWritable(CompressAll(files))
    ensures AllReadable(CompressAll(files))
  {
    var es := CompressAll(files);
    forall i | 0 <= i < |es| ensures Readable(es[i]) {
      assert es[i] == EntryOf(files[i]);
      assert es[i].table == CodeTableOf(files[i].1);
      assert Writable(es[i]);
      CodeTableKeys(files[i].1);
    }
  }

  /** The entries of the files after the first follow the entry of the first. */
  lemma CompressAllTail(files: seq<(seq<Byte>, seq<Byte>)>)
    requires files != []
    ensures CompressAll(files)[1..] == CompressAll(files[1..])
  {
    MapSeqTail(EntryOf, files);
  }

  /** DecompressAllAsync writes the first compressed file back and goes on where the other entries start. */
  lemma DecompressedFirst(data: seq<Byte>, pos: nat, files: seq<(seq<Byte>, seq<Byte>)>) returns (next: nat)
    requires files != [] && AllReadable(CompressAll(files)) && At(data, pos, EntriesBytes(CompressAll(files)))
    ensures DecompressEntry(data, pos) == Ok(Read((BaseName(files[0].0), files[0].1), next))
    ensures AllReadable(CompressAll(files[1..])) && At(data, next, EntriesBytes(CompressAll(files[1..])))
  {
    var es := CompressAll(files);
    CompressAllTail(files);
    CompressEntryDecodes(files[0].0, files[0].1);
    next := DecompressedHead(data, pos, es, files[0].1);
  }

  /** The decompression loop writes the first compressed file back and goes on with the others. */
  lemma DecompressFromFirst(data: seq<Byte>, pos: nat, files: seq<(seq<Byte>, seq<Byte>)>,
                            outputs: seq<(seq<Byte>, seq<Byte>)>) returns (next: nat)
    requires files != [] && AllReadable(CompressAll(files)) && At(data, pos, EntriesBytes(CompressAll(files)))
    ensures DecompressFrom(data, pos, |files|, outputs)
         == DecompressFrom(data, next, |files[1..]|, outputs + [(BaseName(files[0].0), files[0].1)])
    ensures AllReadable(CompressAll(files[1..])) && At(data, next, EntriesBytes(CompressAll(files[1..])))
  {
    next := DecompressedFirst(data, pos, files);
    DecompressFromStep(data, pos, |files|, outputs);
  }

  /** The decompression loop over the entries of compressed files writes every file back, in order. */
  lemma {:induction false} DecompressFromAt(data: seq<Byte>, pos: nat, files: seq<(seq<Byte>, seq<Byte>)>,
                                            outputs: seq<(seq<Byte>, seq<Byte>)>)
    requires AllReadable(CompressAll(files)) && At(data, pos, EntriesBytes(CompressAll(files)))
    ensures DecompressFrom(data, pos, |files|, outputs) == Ok(outputs + BaseNamed(files))
    decreases |files|
  {
    if files == [] {
      assert outputs + BaseNamed(files) == outputs;
    } else {
      var next := DecompressFromFirst(data, pos, files, outputs);
      DecompressFromAt(data, next, files[1..], outputs + [(BaseName(files[0].0), files[0].1)]);
      BaseNamedCons(files, outputs);
    }
  }

  /**
   * Archive round trip: DecompressAllAsync on the archive CompressFilesAsync
   * writes gives back every file, byte for byte, in input order, each under
   * the base name of its stored path.
   */
  lemma DecompressRoundTrip(files: seq<(seq<Byte>, seq<Byte>)>, es: seq<Entry>)
    requires es == CompressAll(files) && AllWritable(es) && |es| <= Int32Max
    ensures DecompressedFiles(ArchiveBytes(es)) == Ok(BaseNamed(files))
  {
    CompressedReadable(files);
    ArchiveAt(es);
    DecompressFromAt(ArchiveBytes(es), 4, files, []);
    assert [] + BaseNamed(files) == BaseNamed(files);
  }

  /**
   * The search steps over the first compressed file when `matches` rejects
   * its path, going on where the other entries start, and decodes it when
   * `matches` accepts it.
   */
  lemma ExtractedFirst(data: seq<Byte>, pos: nat, files: seq<(seq<Byte>, seq<Byte>)>, matches: seq<Byte> -> bool)
    returns (next: nat)
    requires files != [] && AllReadable(CompressAll(files)) && At(data, pos, EntriesBytes(CompressAll(files)))
    ensures matches(files[0].0) ==> ExtractStep(data, pos, matches) == Ok(Found(files[0].1))
    ensures !matches(files[0].0) ==> ExtractStep(data, pos, matches) == Ok(Skip(next))
    ensures AllReadable(CompressAll(files[1..])) && At(data, next, EntriesBytes(CompressAll(files[1..])))
  {
    var es := CompressAll(files);
    CompressAllTail(files);
    if matches(files[0].0) {
      CompressEntryDecodes(files[0].0, files[0].1);
      next := ExtractedFound(data, pos, es, matches, files[0].1);
    } else {
      next := ExtractedSkip(data, pos, es, matches);
    }
  }

  /** The search over the entries of compressed files finds the first file whose path `matches` accepts. */
  lemma {:induction false} ExtractFromAt(data: seq<Byte>, pos: nat, files: seq<(seq<Byte>, seq<Byte>)>, matches: seq<Byte> -> bool)
    requires AllReadable(CompressAll(files)) && At(data, pos, EntriesBytes(CompressAll(files)))
    ensures ExtractFrom(data, pos, |files|, matches) == FirstMatch(files, matches)
    decreases |files|
  {
    if files != [] {
      var next := ExtractedFirst(data, pos, files, matches);
      ExtractFromAt(data, next, files[1..], matches);
      ExtractFromCons(data, pos, next, files, matches);
    }
  }

  /**
   * A search whose first step finds the first file when `matches` accepts
   * its path, and otherwise skips to where the search over the others finds
   * their first match, finds the first match of all the files.
   */
  lemma ExtractFromCons(data: seq<Byte>, pos: nat, next: nat, files: seq<(seq<Byte>, seq<Byte>)>, matches: seq<Byte> -> bool)
    requires files != []
    requires matches(files[0].0) ==> ExtractStep(data, pos, matches) == Ok(Found(files[0].1))
    requires !matches(files[0].0) ==> ExtractStep(data, pos, matches) == Ok(Skip(next))
    requires ExtractFrom(data, next, |files[1..]|, matches) == FirstMatch(files[1..], matches)
    ensures ExtractFrom(data, pos, |files|, matches) == FirstMatch(files, matches)
  {
    ExtractFromStep(data, pos, |files|, matches);
    if matches(files[0].0) {
      assert FirstMatch(files, matches) == Some(files[0].1);
    } else {
      assert FirstMatch(files, matches) == FirstMatch(files[1..], matches);
      assert |files| - 1 == |files[1..]|;
    }
  }

  /**
   * ExtractSingleFileAsync on the archive of `files` writes the first file
   * whose base name matches the requested one, ignoring case, and returns
   * false when none does.
   */
  lemma ExtractRoundTrip(files: seq<(seq<Byte>, seq<Byte>)>, es: seq<Entry>, requested: seq<Byte>)
    requires es == CompressAll(files) && AllWritable(es) && |es| <= Int32Max
    ensures ExtractedFile(ArchiveBytes(es), requested) == Ok(FirstMatch(files, MatchesFile(requested)))
  {
    CompressedReadable(files);
    ArchiveAt(es);
    ExtractFromAt(ArchiveBytes(es), 4, files, MatchesFile(requested));
  }

  /**
   * Picked files archived by CompressFilesAsync list their base names, and
   * decompress to themselves under those names when no base name starts
   * with a drive.
   */
  lemma PickedFilesRoundTrip(files: seq<(seq<Byte>, seq<Byte>)>, es: seq<Entry>)
    requires es == CompressAll(BaseNamed(files)) && AllWritable(es) && |es| <= Int32Max
    requires forall i :: 0 <= i < |files| ==> !HasDrive(BaseName(files[i].0))
    ensures FileList(ArchiveBytes(es)) == Ok(Names(es))
    ensures |Names(es)| == |files| && forall i :: 0 <= i < |files| ==> Names(es)[i] == BaseName(files[i].0)
    ensures DecompressedFiles(ArchiveBytes(es)) == Ok(BaseNamed(files))
  {
    var named := BaseNamed(files);
    CompressedReadable(named);
    FileListRoundTrip(es);
    DecompressRoundTrip(named, es);
    BaseNamedTwice(files);
  }
}
