# Huffman and Shannon-Fano archiver: a verified model of the compression core

The archiver compresses a set of files into one archive, with either a
Huffman code or a Shannon-Fano code. It can list the archive, decompress
every entry, or extract one entry by file name. This project models the
statistical compression core of `Form1.cs` in Dafny and proves its
properties. The core has five parts:

- **Bit packer** (`bitpacker.dfy`). `PackBits` turns a string of '0'/'1'
  characters into bytes, eight bits at a time, most significant bit first,
  with the last byte padded with '0'. Both decoders expand each byte back
  into eight bits with `Convert.ToString(b, 2).PadLeft(8, '0')`.
- **Huffman codec** (`frequency.dfy`, `huffman.dfy`).
  - `BuildFrequencyTable` counts each byte.
  - `BuildHuffmanTree` merges the two least frequent nodes until one is left.
  - `BuildTableRecursive` gives each leaf its path (0 = left, 1 = right).
  - `EncodeData` joins the codes of the input's bytes.
  - `DecodeData` walks the tree one bit at a time.
- **Shannon-Fano codec** (`shannonfano.dfy`).
  - `BuildTable` sorts the symbols by descending count. `GenerateCodes`
    then splits the array in place at the first prefix whose sum reaches
    half the total, appends '0' to one side and '1' to the other, and
    recurses.
  - `Compress` encodes and packs.
  - `Decompress` grows a buffer until it equals a code of the reversed table.
- **Priority queue** (`priorityqueue.dfy`). `PriorityQueue<T>` keeps a list
  sorted by priority: `Enqueue` appends and re-sorts, `Dequeue` removes
  index 0.
- **Archive formats** (`binaryformat.dfy`, `archiveformat.dfy`,
  `archivenames.dfy`, `huffmanarchive.dfy`, `shannonfanoarchive.dfy`).
  - The writer is `WriteFileToArchive`, once per algorithm. It writes an
    int32 entry count, then for each entry: the path (length-prefixed),
    the original size, the table and the payload (length-prefixed).
  - A Huffman table record is a byte and an int32 count. A Shannon-Fano
    record is a byte and a `BinaryWriter` string (a 7-bit encoded length,
    then the characters).
  - The readers are the loops of `GetFileListAsync`, `DecompressAllAsync`
    and `ExtractSingleFileAsync`, once per algorithm.

How the model represents the source:

- The runtime is .NET Core (.NET 5 or later) on Windows. `Path.GetFileName`
  therefore follows Windows path roots (drives, UNC shares, device paths),
  and `BinaryReader.Read7BitEncodedInt` rejects a fifth byte above 15.
- Paths are their UTF-8 bytes, and the archive is a `seq<Byte>`.
- A `BinaryReader` is a cursor position in that sequence, and every read
  returns the value together with the next position.
- A `Dictionary` whose enumeration order reaches the archive is an ordered
  sequence of pairs. Storing a key replaces it in place, and a new key is
  appended.
- Every exception is a `Result` error naming its cause. The source's
  `false` from extraction is `None`.
- The Shannon-Fano extraction functions (`ExtractStep`, `ExtractFrom`,
  `Extraction`) take the name test as a predicate on stored paths. The
  extractor instantiates it with `ArchiveNames.MatchesFile(requested)`,
  the base-name comparison ignoring case.
- Each loop of the source is a method whose `ensures` equates its result
  with a pure function of its inputs. The properties are lemmas about that
  function.
- The central results:
  - `ShannonFano.ShannonFanoRoundTrip`: Shannon-Fano decompression of the
    packed code gives back every input.
  - `Huffman.HuffmanRoundTrip`: the same for Huffman, on every input with
    two or more distinct bytes. `Huffman.HuffmanRoundTripFixed` extends it
    to every non-empty input with the corrected decoder (see Findings).
  - `HuffmanArchive.DecompressRoundTrip` and
    `ShannonFanoArchive.DecompressRoundTrip`: decompressing an archive
    written from a list of (stored name, contents) pairs gives back each
    file under the base name of its stored name.
    The Huffman one holds with the corrected decoder; as written, an
    archive holding a file of one repeated byte fails to decompress (see
    Findings).
  - `HuffmanArchive.ExtractRoundTrip` and
    `ShannonFanoArchive.ExtractRoundTrip`: extraction gives back the first
    file whose base name matches, or reports that none matches. The
    Huffman one holds with the corrected decoder; as written, extracting a
    file of one repeated byte from such an archive fails (see Findings).
  - `HuffmanArchive.FileListRoundTrip` and
    `ShannonFanoArchive.FileListRoundTrip`: listing gives back every
    stored path, in order.
  - `HuffmanArchive.PickedFilesRoundTrip` and
    `ShannonFanoArchive.PickedFilesRoundTrip`: `CompressFilesAsync` stores
    each picked file under its path's base name (`Path.GetFileName`), so
    its archive lists those names and decompresses to each file under the
    same name (when no base name begins with a drive).

The readers do not all check the same fields, and the model keeps each
reader's own checks:

- The Shannon-Fano `GetFileListAsync` rejects a path length of zero or
  less and a negative payload length, but does not check the code-table
  count (Form1.cs:1509-1514). A negative count reads no records.
- The Shannon-Fano extractor's matching branch checks neither the
  code-table count nor the payload length (Form1.cs:1781-1792). A negative
  count reads no records; a negative payload length makes `ReadBytes`
  throw.
- Any exception inside the Shannon-Fano extractor's `try` is caught
  (Form1.cs:1801-1806). The position is rewound to the entry's start and
  the loop goes on, so the same entry fails again. One failing entry
  therefore ends the search with `false`.
- The Shannon-Fano path restores a file made of one repeated byte. The
  Huffman compressor writes such a file into an archive that its own
  decompressor cannot read back; see Findings.

## Model

| member | source | states |
|---|---|---|
| Common.Prepend | Form1.cs:1106 | prepending the entries made so far keeps an error an error and otherwise puts them in front |
| Common.Set | Form1.cs:1366 | storing `d[k] = v` never empties the dictionary and adds at most one pair |
| Common.SetLookup | Form1.cs:1366 | after storing `d[k] = v`, k looks up v and every other key looks up its old value |
| Common.SetInPlace | Form1.cs:1699 | with distinct keys, storing an existing key replaces its pair where it stands and keeps every other pair |
| Common.SetDistinct | Form1.cs:1366 | storing a key keeps the keys distinct |
| Common.SetKeys | Form1.cs:1366 | storing `d[k] = v` keeps every key in its place; a key not yet present is appended last |
| Common.SetFresh | Form1.cs:1699 | storing a key not yet present appends the pair at the end |
| Common.ToMapAt | Form1.cs:1890 | `ToDictionary` over distinct keys maps every key to the value paired with it |
| BitPacker.ParseBinary | Form1.cs:1335 | `Convert.ToByte(s, 2)` of an n-digit binary string is below 2^n |
| BitPacker.Binary | Form1.cs:1374 | `Convert.ToString(b, 2).PadLeft(w, '0')` is exactly w binary digits |
| BitPacker.BinaryOfParse | Form1.cs:1335 | printing the parsed value in as many digits as were parsed gives back the digit string |
| BitPacker.ParseOfBinary | Form1.cs:1374 | parsing the w-digit form of a value below 2^w gives back the value |
| BitPacker.PadRight8 | Form1.cs:1334 | the padded chunk has 8 characters and starts with the chunk, and stays binary |
| BitPacker.PackStep | Form1.cs:1331-1336 | one loop pass emits the padded 8-bit chunk at i as one byte and continues at i + 8 |
| BitPacker.PackBits | Form1.cs:1329-1338 | the loop computes the packing of the whole bit string |
| BitPacker.Pack | Form1.cs:1329-1338 | packing yields ceil(\|bits\|/8) bytes |
| BitPacker.Unpack | Form1.cs:1854 | unpacking yields 8 binary digits per byte |
| BitPacker.UnpackFirstGroup | Form1.cs:1333-1335 | the first byte unpacks to the first chunk of up to 8 bits, right-padded to 8 |
| BitPacker.UnpackPack | Form1.cs:1374 | unpacking a packing gives the bits back followed by fewer than 8 '0' bits |
| BitPacker.PackUnpack | Form1.cs:1919-1921 | packing the unpacked bits of any bytes gives the bytes back |
| Frequency.Bump | Form1.cs:1286 | counting one more byte adds one to its count (or opens its group last) and one to the total |
| Frequency.BumpCounts | Form1.cs:1286 | after one more byte every group's count equals its number of occurrences in the longer input |
| Frequency.FrequencyTable | Form1.cs:1284-1287 | the keys are exactly the distinct input bytes, each count is its occurrences (> 0), counts sum to the input length |
| Frequency.Encode | Form1.cs:1324-1327 | the joined codes are binary when the codes are, and begin with the first byte's code |
| Frequency.EncodeAppend | Form1.cs:1844 | encoding a concatenation is the concatenation of the encodings |
| PriorityQueues.InsertionPoint | Form1.cs:1935 | the new item goes after every item of priority at most its own and before every larger one |
| PriorityQueues.InsertionPointAt | Form1.cs:1935 | any position with that property is the insertion point |
| PriorityQueues.InsertByPriority | Form1.cs:1934-1935 | the re-sorted list is one longer |
| PriorityQueues.InsertPermutes | Form1.cs:1934-1935 | the re-sorted list holds the old items plus the new one |
| PriorityQueues.InsertKeepsOrder | Form1.cs:1935 | re-sorting a sorted list with a new item leaves it sorted by priority |
| PriorityQueues.PriorityQueue.constructor | Form1.cs:1928 | a new queue is empty and sorted |
| PriorityQueues.PriorityQueue.Count | Form1.cs:1930 | Count is the number of queued items |
| PriorityQueues.PriorityQueue.Enqueue | Form1.cs:1932-1936 | the list becomes the old list with the item inserted by priority, still sorted (so Count grows by one) |
| PriorityQueues.PriorityQueue.Dequeue | Form1.cs:1938-1946 | on an empty queue the error and no change; otherwise the item of least priority, removed from the front |
| Huffman.LeafSymbols | Form1.cs:961-968 | every tree has at least one leaf, and exactly one iff it is a leaf |
| Huffman.InitialQueue | Form1.cs:1292-1293 | one queued leaf per table entry |
| Common.WrappingAdd | Form1.cs:1299 | C#'s unchecked `int` addition: the result is an int32 congruent to the sum mod 2^32, and is the sum itself when that fits |
| Huffman.Parent | Form1.cs:1297-1300 | the merged node has the two front nodes as children; its frequency is their int32 sum, wrapped around past Int32Max, and the plain sum when it fits |
| Huffman.MergeStep | Form1.cs:1295-1301 | each merge shrinks the queue by exactly one |
| Huffman.MergeAll | Form1.cs:1295-1301 | merging a non-empty queue ends with one node, an empty one with none |
| Huffman.HuffmanTree | Form1.cs:1289-1304 | a tree is built exactly when the table is non-empty; otherwise the empty-queue error |
| Huffman.BuildHuffmanTree | Form1.cs:1289-1304 | the queue-based method builds that tree or throws that error |
| Huffman.EnqueueLeaves | Form1.cs:1291-1293 | the queue holds one leaf per table entry, sorted |
| Huffman.MergeQueue | Form1.cs:1295-1303 | the merge loop and the final Dequeue give the last remaining node |
| Huffman.MergeStepOf | Form1.cs:1297-1300 | one loop pass on the queue is one merge step, and the final tree is unchanged by it |
| Huffman.InsertSymbols | Form1.cs:1299 | enqueuing a node adds exactly that node's leaves to the queue's leaves |
| Huffman.InsertSum | Form1.cs:1299 | enqueuing adds the node's priority to the queue's total |
| Huffman.InsertWellFormed | Form1.cs:1299 | enqueuing a well-formed node keeps the queue sorted and well-formed |
| Huffman.InsertFacts | Form1.cs:1299-1300 | order, well-formedness, leaves and total are all preserved by enqueuing |
| Huffman.InitialQueueWellFormed | Form1.cs:1292-1293 | the initial queue is sorted and each priority is its leaf's frequency |
| Huffman.InitialQueueSymbols | Form1.cs:1292-1293 | the initial queue's leaves are a permutation of the table's keys |
| Huffman.EnqueueLeafSymbols | Form1.cs:1293 | enqueuing the last table entry's leaf completes that permutation |
| Huffman.InitialQueueSum | Form1.cs:1292-1293 | the initial queue's total is the sum of the counts |
| Huffman.MergeStepSum | Form1.cs:1297-1300 | a merge keeps the queue's total modulo 2^32 |
| Huffman.MergeStepFacts | Form1.cs:1297-1300 | a merge keeps the queue sorted, well-formed and of the same total modulo 2^32 |
| Huffman.MergeStepSymbols | Form1.cs:1297-1300 | a merge keeps the multiset of leaves |
| Huffman.MergeAllFacts | Form1.cs:1295-1301 | the merge loop preserves well-formedness, the leaves, and the total frequency modulo 2^32 |
| Huffman.HuffmanTreeShape | Form1.cs:1289-1304 | the root's leaves are a permutation of the table's keys, every node weighs the wrapped int32 sum of its children, the root weighs the sum of the counts modulo 2^32 |
| Huffman.HuffmanRootWeight | Form1.cs:1289-1304 | when the counts sum to an int32 (always so for a compressed file), nothing wraps and the root weighs exactly that sum |
| Huffman.HuffmanRootKind | Form1.cs:1295-1303 | two or more symbols give an internal root; one symbol gives a lone leaf root |
| Huffman.HuffmanLeavesDistinct | Form1.cs:1289-1304 | with distinct table keys no symbol appears on two leaves |
| Huffman.CodeTable | Form1.cs:1313-1322 | the table's keys are exactly the tree's leaf symbols |
| Huffman.CodeTablePrefixes | Form1.cs:1317-1321 | every code is non-empty and extends the code of its subtree, strictly below a node |
| Huffman.CodeTableBits | Form1.cs:1320-1321 | every code is a binary string |
| Huffman.BuildTableRecursive | Form1.cs:1313-1322 | the recursion adds exactly the codes of the subtree to the dictionary it fills |
| Huffman.BuildEncodingTable | Form1.cs:1306-1311 | the encoding table is the code table of the root |
| Huffman.Child | Form1.cs:1385 | a step has a child exactly at an internal node |
| Huffman.CodeIsPath | Form1.cs:1313-1322 | following a leaf's code from the root reaches that leaf (0 = left, 1 = right) |
| Huffman.Diverge | Form1.cs:1320-1321 | codes under the left and the right child are never prefixes of each other |
| Huffman.CodeTablePrefixFree | Form1.cs:1313-1322 | no code is a prefix of another symbol's code |
| Huffman.DecodeBits | Form1.cs:1383-1399 | a successful decode has exactly the original size and extends what was written |
| Huffman.DecodeData | Form1.cs:1371-1410 | the decoding loop over the unpacked bits computes that decode |
| Huffman.NodeRootNeverInvalid | Form1.cs:1385-1387 | with an internal root the null-child error never happens |
| Huffman.DecodePath | Form1.cs:1383-1395 | reading one leaf's path writes that leaf's byte and restarts at the root (or stops at the size) |
| Huffman.DecodeEncoded | Form1.cs:1383-1399 | decoding the codes of x after anything yields exactly x when the size is \|x\| |
| Huffman.TwoDistinctBytes | Form1.cs:1284-1287 | an input with two different bytes has at least two table entries |
| Huffman.HuffmanRoundTrip | Form1.cs:1371-1410 | for input with at least two distinct bytes, decoding the packed encoding gives the input back |
| Huffman.RoundTripBelow | Form1.cs:1371-1410 | with an internal root covering x, decoding the packed encoding gives x back |
| Huffman.TablePaths | Form1.cs:1313-1322 | every code of an internal root's table is binary and leads to its own symbol |
| Huffman.TableCovers | Form1.cs:1324-1327 | every input byte has a code |
| Huffman.TableEncodes | Form1.cs:1324-1327 | the tree exists, the table covers the input and the encoding is binary |
| Huffman.LeafOfTable | Form1.cs:1292-1293 | every input byte is one of the tree's leaves |
| Huffman.SingleByteTable | Form1.cs:1284-1287 | a file of one repeated byte has the single entry (byte, length) |
| Huffman.LoneLeafTree | Form1.cs:1303 | its tree is that lone leaf |
| Huffman.LeafTable | Form1.cs:1317 | a lone leaf's code is "0" |
| Huffman.LoneLeafCode | Form1.cs:1326 | such a file encodes to as many '0's as it has bytes |
| Huffman.LeafRejects | Form1.cs:1385-1387 | stepping from a leaf throws the invalid-bit-sequence error |
| Huffman.LeafRejectsZeros | Form1.cs:1385-1387 | decoding packed zeros from a lone leaf throws that error |
| Huffman.LoneLeafDecodeFails | Form1.cs:1317 | as written, every file of one repeated byte fails to decode |
| Huffman.LoneLeafBits | Form1.cs:1389-1399 | corrected lone-leaf loop: a success has exactly the size and extends the output |
| Huffman.DecodeFixed | Form1.cs:1383-1399 | corrected decode: a success has exactly the original size |
| Huffman.DecodePayload | Form1.cs:1371-1410 | the corrected loop computes the corrected decode |
| Huffman.LoneLeafWrites | Form1.cs:1389-1394 | each bit writes the lone byte until the size is reached |
| Huffman.LoneLeafRoundTrip | Form1.cs:1389-1399 | the corrected decoder restores a file of one repeated byte |
| Huffman.HuffmanRoundTripFixed | Form1.cs:1371-1410 | with the corrected decoder every non-empty input round-trips |
| ShannonFano.InsertDescending | Form1.cs:1886 | a stable insertion by descending count grows the list by one |
| ShannonFano.SortByFrequency | Form1.cs:1886 | the sorted list has the table's length |
| ShannonFano.InsertDescendingPermutes | Form1.cs:1886 | that insertion adds exactly the new item |
| ShannonFano.InsertDescendingOrder | Form1.cs:1886 | that insertion keeps the order by descending count |
| ShannonFano.SortByFrequencyOrder | Form1.cs:1884-1887 | `OrderByDescending` sorts by descending count |
| ShannonFano.SortByFrequencyPermutes | Form1.cs:1884-1887 | and is a permutation of the table |
| ShannonFano.Half | Form1.cs:1904 | `total / 2` truncates toward zero: twice it is within one of the total |
| ShannonFano.FirstAtLeast | Form1.cs:1901-1905 | the split search stays inside the segment |
| ShannonFano.FirstAtLeastFacts | Form1.cs:1901-1905 | the search stops at the first prefix whose sum reaches half, every shorter prefix being below it |
| ShannonFano.SplitPoint | Form1.cs:1897-1905 | the split leaves at least one symbol on the right |
| ShannonFano.SplitInRange | Form1.cs:1897-1905 | on descending counts the search itself lands before the last index, so both halves are non-empty |
| ShannonFano.Prefixed | Form1.cs:1907-1908 | each code gets the bit in front |
| ShannonFano.Suffixes | Form1.cs:1893-1912 | one code per symbol of the segment |
| ShannonFano.SuffixesSplit | Form1.cs:1907-1911 | the codes of a segment are '0' + the left half's codes, then '1' + the right half's |
| ShannonFano.SegmentSuffixes | Form1.cs:1907-1911 | the same for a segment of the array |
| ShannonFano.AppendAt | Form1.cs:1907-1908 | appending to a range of the code array keeps its length |
| ShannonFano.Marks | Form1.cs:1907-1908 | the marks are "0" for the left half and "1" for the right |
| ShannonFano.MarkedAt | Form1.cs:1907-1908 | after marking, each code in the segment got its half's bit |
| ShannonFano.FirstHalfCoded | Form1.cs:1907-1911 | a left-half code ends up as old code + "0" + its sub-code |
| ShannonFano.SecondHalfCoded | Form1.cs:1907-1911 | a right-half code ends up as old code + "1" + its sub-code |
| ShannonFano.HalvesAppended | Form1.cs:1907-1911 | the expected code at each index of the segment |
| ShannonFano.CombineFirst | Form1.cs:1907-1911 | marking then recursing equals appending the split codes, on the left half |
| ShannonFano.CombineSecond | Form1.cs:1907-1911 | the same on the right half |
| ShannonFano.CombineOutside | Form1.cs:1907-1911 | codes outside the segment are untouched |
| ShannonFano.CombineHalves | Form1.cs:1907-1911 | marking then recursing on both halves appends exactly the segment's codes |
| ShannonFano.AppendedNothing | Form1.cs:1895 | a one-symbol segment leaves the codes unchanged |
| ShannonFano.SegmentSplit | Form1.cs:1897-1905 | the split lies in [start, end - 1] |
| ShannonFano.SegmentCodes | Form1.cs:1893-1912 | one suffix per symbol, the empty suffix for a single symbol |
| ShannonFano.SegmentCodesSlice | Form1.cs:1893-1912 | the segment's codes are those of its counts alone |
| ShannonFano.SegmentCodesSplit | Form1.cs:1907-1911 | the segment's codes are the marked codes of its two halves |
| ShannonFano.FindSplit | Form1.cs:1897-1905 | the summing loop finds that split |
| ShannonFano.MarkHalves | Form1.cs:1907-1908 | the marking loops append "0" on the left and "1" on the right, in place, nothing else changed |
| ShannonFano.GenerateStep | Form1.cs:1907-1911 | marking then the two recursive calls append the segment's codes |
| ShannonFano.GenerateCodes | Form1.cs:1893-1912 | in place, the array gains exactly the segment's codes and is unchanged outside it |
| ShannonFano.PrefixCancel | Form1.cs:1907-1908 | a shared leading bit does not make one code a prefix of another |
| ShannonFano.DifferentLead | Form1.cs:1907-1908 | codes with different first bits are not prefixes |
| ShannonFano.HalvesAt | Form1.cs:1907-1911 | the code at an index of the joined halves |
| ShannonFano.HalvesPairPrefixFree | Form1.cs:1907-1911 | two codes of the joined halves are never prefixes of each other |
| ShannonFano.PrefixedHalvesBits | Form1.cs:1907-1908 | leading bit strings with '0' or '1' gives non-empty bit strings |
| ShannonFano.PrefixedHalvesFree | Form1.cs:1907-1911 | two prefix-free lists, one led by '0' and one by '1', form one prefix-free list |
| ShannonFano.PrefixedHalves | Form1.cs:1907-1911 | joining two prefix-free halves gives non-empty prefix-free binary codes |
| ShannonFano.SuffixesPrefixFree | Form1.cs:1893-1912 | the generated codes are binary, prefix-free, and non-empty for two or more symbols |
| ShannonFano.SortedSymbols | Form1.cs:1884-1887 | one sorted symbol per distinct input byte |
| ShannonFano.CodeTableOf | Form1.cs:1882-1891 | the table pairs each sorted symbol, in that order, with a code that is never empty |
| ShannonFano.DescendingValues | Form1.cs:1886 | the counts of the sorted symbols are descending |
| ShannonFano.SortedSymbolsOrdered | Form1.cs:1884-1887 | the symbols are sorted by descending count |
| ShannonFano.SortedSymbolsPermutes | Form1.cs:1884-1887 | the sorted symbols are a permutation of the frequency table |
| ShannonFano.SortedCodes | Form1.cs:1889 | one code per sorted symbol |
| ShannonFano.TableOf | Form1.cs:1890 | each sorted symbol is paired with its code, an empty code becoming "0" |
| ShannonFano.AppendToBlank | Form1.cs:1838 | appending to blank codes gives the appended codes |
| ShannonFano.CodesOf | Form1.cs:1889 | GenerateCodes on the whole sorted array gives the specified codes |
| ShannonFano.BuildTable | Form1.cs:1882-1891 | the method builds the specified table |
| ShannonFano.CodeTableKeys | Form1.cs:1884-1890 | the table's keys are distinct and are exactly the input's bytes |
| ShannonFano.SortedCodesPrefixFree | Form1.cs:1889 | the generated codes are binary and prefix-free |
| ShannonFano.FallbackCodes | Form1.cs:1890 | after the "0" fallback every code is non-empty, binary and prefix-free |
| ShannonFano.CodeTableCodes | Form1.cs:1882-1891 | the table's codes are non-empty, binary and prefix-free |
| ShannonFano.TableMapPrefixFree | Form1.cs:1890 | as a dictionary the table is prefix-free with non-empty binary codes |
| ShannonFano.CodeTablePrefixFree | Form1.cs:1882-1891 | the dictionary covers the input, and is prefix-free and binary |
| ShannonFano.CodeTableEncodes | Form1.cs:1843-1844 | every input byte has a code and the encoding is binary |
| ShannonFano.Compress | Form1.cs:1841-1847 | the table is the specified table, and the data is the packed encoding of the input under it |
| ShannonFano.ReverseTable | Form1.cs:1853 | reversing succeeds iff the codes are distinct, and then maps exactly each code to its symbol |
| ShannonFano.ReverseSnoc | Form1.cs:1853 | adding the last pair keeps every earlier code mapped to its symbol |
| ShannonFano.DecodeCodes | Form1.cs:1859-1872 | a successful decode has exactly the original size and extends what was written |
| ShannonFano.Decompressed | Form1.cs:1849-1880 | success needs distinct codes and yields exactly the original size |
| ShannonFano.Decompress | Form1.cs:1849-1880 | the buffer loop computes that decompression |
| ShannonFano.DecodeOneCode | Form1.cs:1859-1868 | growing the buffer through one code writes its symbol and empties the buffer |
| ShannonFano.DecodeEncodedCodes | Form1.cs:1859-1869 | decoding the codes of x gives x when each code decodes to its own symbol |
| ShannonFano.PrefixFreeDistinct | Form1.cs:1853 | prefix-free codes are distinct, so `ToDictionary` does not throw |
| ShannonFano.ProperPrefixNotCode | Form1.cs:1862 | no proper prefix of a code is itself a code |
| ShannonFano.TableDecodes | Form1.cs:1853-1862 | the reversed table decodes each code to its own symbol, and to nothing earlier |
| ShannonFano.TableRoundTrip | Form1.cs:1849-1880 | any prefix-free binary table covering the input decompresses its packed encoding to the input |
| ShannonFano.DecodePacked | Form1.cs:1854-1872 | decoding the unpacked bits, padding included, stops at the original size with exactly the input |
| ShannonFano.ShannonFanoRoundTrip | Form1.cs:1841-1880 | Decompress(Compress(x)) == x for every input, empty and single-symbol included |
| BinaryFormat.Int32Bytes | Form1.cs:1345 | `Write(int)` is 4 bytes |
| BinaryFormat.Int32Of | Form1.cs:980 | `ReadInt32` gives a value in the int32 range |
| BinaryFormat.ReadInt32 | Form1.cs:980 | reading an int32 succeeds iff 4 bytes remain, and advances by 4 |
| BinaryFormat.Int32RoundTrip | Form1.cs:1345 | reading the 4 written bytes gives the value back |
| BinaryFormat.Int32BytesOfValue | Form1.cs:980 | writing the value of any 4 bytes gives them back |
| BinaryFormat.ReadInt32At | Form1.cs:980 | reading where an int32 was written gives it back |
| BinaryFormat.ReadByte | Form1.cs:1364 | `ReadByte` gives the next byte, or end of stream |
| BinaryFormat.ReadBytes | Form1.cs:988 | `ReadBytes(n)` rejects n < 0, otherwise gives the next n bytes or all that remain |
| BinaryFormat.ReadBytesAt | Form1.cs:988 | reading bytes where they were written gives them back |
| BinaryFormat.SevenBit | Form1.cs:1825 | the 7-bit length prefix of `Write(string)` is at least one byte |
| BinaryFormat.AsInt32 | Form1.cs:1698 | the 32 assembled bits are read as a signed int32 |
| BinaryFormat.Read7BitFrom | Form1.cs:1698 | a decoded length is an int32 and takes 1 to 5 bytes |
| BinaryFormat.Read7BitInt | Form1.cs:1698 | a decoded length is an int32 and takes 1 to 5 bytes |
| BinaryFormat.Read7BitAt | Form1.cs:1698 | reading a 7-bit encoded length gives back the length written |
| BinaryFormat.AsciiBytes | Form1.cs:1825 | UTF-8 of an ASCII code string is one byte per character |
| BinaryFormat.Chars | Form1.cs:1698 | the decoded string has one character per byte |
| BinaryFormat.ReadString | Form1.cs:1698 | `ReadString` advances past the length and characters |
| BinaryFormat.ReadStringAt | Form1.cs:1698 | reading a written code string gives it back, and ends where it ends |
| ArchiveFormat.LengthPrefixed | Form1.cs:1344-1346 | a length-prefixed field is 4 bytes longer than its contents |
| ArchiveFormat.LengthPrefixedAt | Form1.cs:985-988 | reading a length-prefixed field gives back its length and contents |
| ArchiveFormat.ReadFileCount | Form1.cs:980-981 | the entry count is accepted iff it is there and non-negative; negative is the invalid-count error |
| ArchiveFormat.ReadFileCountAt | Form1.cs:1132 | the written count is read back |
| ArchiveFormat.ReadName | Form1.cs:985-988 | a name length <= 0 is rejected; otherwise the name bytes (truncated at the end) |
| ArchiveFormat.ReadNameAt | Form1.cs:985-988 | a written non-empty name is read back |
| ArchiveFormat.ReadPayload | Form1.cs:1002-1005 | a negative payload length is rejected; otherwise the payload bytes (truncated at the end) |
| ArchiveFormat.ReadPayloadAt | Form1.cs:1002-1005 | a written payload is read back |
| ArchiveNames.BaseName | Form1.cs:1104 | `Path.GetFileName` on Windows is no longer than the path and holds no separator |
| ArchiveNames.BaseNameRoot | Form1.cs:1104 | the base name starts after the path's Windows root, and right after a separator unless it starts at the root |
| ArchiveNames.BaseNameIsSuffix | Form1.cs:1104 | the base name is a suffix of the path |
| ArchiveNames.BaseNameOfPlainName | Form1.cs:1104 | a name without separators and without a drive is its own base name |
| ArchiveNames.DriveRelativeName | Form1.cs:1197 | a drive-relative name without separators loses its drive: "C:abc" gives "abc" |
| ArchiveNames.UncShareName | Form1.cs:1197 | "\\server\share" has the empty base name, since the whole path is its root |
| ArchiveNames.BaseNameIdempotent | Form1.cs:1270 | taking the base name twice changes nothing, unless the base name itself begins with a drive |
| ArchiveNames.BaseNameAfterSeparator | Form1.cs:1197 | the base name of dir + separator + name is name, unless the path begins as a UNC or device path |
| ArchiveNames.MatchesFile | Form1.cs:1270 | an entry matches iff its base name equals the requested base name ignoring case |
| ArchiveNames.FirstMatch | Form1.cs:1243-1280 | nothing iff no entry matches; otherwise the contents of the first matching entry |
| ArchiveNames.BaseNamed | Form1.cs:1104 | each file keeps its contents under its path's base name, in order: the pairs CompressFilesAsync archives, and the outputs DecompressAllAsync writes (Form1.cs:1197) |
| ArchiveNames.BaseNamedTwice | Form1.cs:1104 | files already named by base names keep them when cut again, unless a base name begins with a drive |
| ArchiveNames.BaseNamedCons | Form1.cs:1197 | the first output, then those of the rest |
| ArchiveNames.OutputsAfter | Form1.cs:1197 | outputs written after a plainly named one keep those before it and are all plainly named |
| HuffmanArchive.CompressEntry | Form1.cs:1098-1103 | an entry is made iff the file is non-empty, with its name, size and frequency table |
| HuffmanArchive.CompressFile | Form1.cs:1096-1109 | one loop pass computes the entry of the file under its path's base name, or throws |
| HuffmanArchive.EmptyFileAborts | Form1.cs:1116-1120 | an empty file anywhere aborts the archive |
| HuffmanArchive.NonEmptyFilesCompress | Form1.cs:1091-1122 | with no empty file every file compresses |
| HuffmanArchive.CompressAllSucceeds | Form1.cs:1091-1122 | compression succeeds iff no file is empty |
| HuffmanArchive.CompressFiles | Form1.cs:1091-1122 | the loop computes the entries of the picked files under their base names, in input order, or the first error |
| HuffmanArchive.CompressAll | Form1.cs:1091-1122 | the only way compressing the files fails is the empty-queue error of an empty file's tree |
| HuffmanArchive.CompressAllStep | Form1.cs:1091-1109 | the entries from file i are its entry in front of the rest, or its error |
| HuffmanArchive.CompressAllCons | Form1.cs:1091-1122 | one entry per file, the first file's entry first |
| HuffmanArchive.CompressAllAt | Form1.cs:1098-1108 | entry i is the compression of file i |
| HuffmanArchive.CompressEntryDecodes | Form1.cs:1098-1103 | an entry's table keys are distinct and its payload decodes to the file with the corrected decoder |
| HuffmanArchive.CompressedRestores | Form1.cs:1091-1109 | every entry restores its file with the corrected decoder |
| HuffmanArchive.RecordBytes | Form1.cs:1349-1353 | 5 bytes per table record |
| HuffmanArchive.TableBytes | Form1.cs:1348-1353 | the count, then 5 bytes per record |
| HuffmanArchive.EntryBytes | Form1.cs:1340-1356 | an entry is 16 bytes plus name, records and payload |
| HuffmanArchive.EntriesBytes | Form1.cs:1133-1137 | the entries, one after another, at least 16 bytes each |
| HuffmanArchive.ArchiveBytes | Form1.cs:1132-1137 | the archive starts with the entry count as an int32, then at least 16 bytes per entry |
| HuffmanArchive.RecordsTableSize | Form1.cs:1362-1367 | n records stored in turn give at most n pairs, and at least one when n > 0 |
| HuffmanArchive.RecordsTableDistinct | Form1.cs:1362-1367 | the stored table holds each byte once, however often the records repeat it |
| HuffmanArchive.ReadRecords | Form1.cs:1362-1367 | the record loop ends 5 bytes per record on, inside the data, and fails with end of stream exactly when the records do not fit |
| HuffmanArchive.RecordsTableStep | Form1.cs:1364-1366 | one more record stores its byte and count in the table read so far |
| HuffmanArchive.ReadRecordsDone | Form1.cs:1362-1368 | the loop, stopped after reading every record, has read what the record loop specifies |
| HuffmanArchive.ReadTable | Form1.cs:1358-1369 | `ReadFrequencyTable` ends inside the data after its count |
| HuffmanArchive.ReadCheckedTable | Form1.cs:1254-1263 | the checked table ends inside the data after its count |
| HuffmanArchive.ReadEntry | Form1.cs:1248-1268 | a read entry spans at least its 16 fixed bytes, inside the data |
| HuffmanArchive.DecompressEntry | Form1.cs:1183-1200 | a decompressed entry spans at least its 16 fixed bytes, inside the data |
| HuffmanArchive.DecodeTail | Form1.cs:1190-1200 | the tree, the payload and the decode end inside the data |
| HuffmanArchive.ReadRecord | Form1.cs:1260-1261 | a record is a byte then an int32, or end of stream |
| HuffmanArchive.ReadRecordsLoop | Form1.cs:1258-1263 | the loop reads the records into the ordered table |
| HuffmanArchive.SkipRecords | Form1.cs:996-1000 | the skipping loop stops where the records end, or at end of stream |
| HuffmanArchive.ReadFrequencyTable | Form1.cs:1358-1369 | the method reads the specified table |
| HuffmanArchive.ListFrom | Form1.cs:983-1006 | a successful listing keeps the paths listed so far and adds one per remaining entry |
| HuffmanArchive.ListEntry | Form1.cs:985-1005 | one listing pass and the rest of the loop add one path per remaining entry |
| HuffmanArchive.FileList | Form1.cs:970-1016 | a successful listing has one path per entry the archive's count announces |
| HuffmanArchive.SkipEntry | Form1.cs:985-1005 | one listing pass reads the specified fields and keeps the path |
| HuffmanArchive.ListFromStep | Form1.cs:983-1006 | a listing pass either fails or lists the path and continues after the entry |
| HuffmanArchive.ListPass | Form1.cs:985-1005 | one pass keeps the listing invariant |
| HuffmanArchive.GetFileList | Form1.cs:970-1016 | the loop computes the listing |
| HuffmanArchive.DecompressFrom | Form1.cs:1178-1213 | a successful decompression keeps the outputs so far and adds one plainly named file per remaining entry |
| HuffmanArchive.DecompressNext | Form1.cs:1183-1212 | one pass and the rest of the loop add one plainly named file per remaining entry |
| HuffmanArchive.DecompressedFiles | Form1.cs:1159-1227 | a successful decompression writes one file per announced entry, each named without a directory |
| HuffmanArchive.DecompressOne | Form1.cs:1183-1200 | one decompression pass computes the specified output |
| HuffmanArchive.DecompressFromStep | Form1.cs:1178-1213 | a decompression pass either fails or outputs one file and continues |
| HuffmanArchive.DecompressPass | Form1.cs:1183-1212 | one pass keeps the decompression invariant |
| HuffmanArchive.DecompressAll | Form1.cs:1159-1227 | the loop computes the specified outputs |
| HuffmanArchive.ReadEntryFields | Form1.cs:1248-1268 | the reads of one extraction pass compute the specified entry |
| HuffmanArchive.ExtractFrom | Form1.cs:1243-1280 | a file found by the search is the decoded contents of an entry, somewhere in the data, whose base name matches |
| HuffmanArchive.ExtractNext | Form1.cs:1245-1276 | the same for one pass and the rest of the search |
| HuffmanArchive.ExtractMatch | Form1.cs:1270-1275 | an empty table is the empty-queue error; a decoded entry has exactly its recorded size |
| HuffmanArchive.ExtractedFile | Form1.cs:1229-1282 | an archive of no entries gives `false`; a file found is a matching entry's decoded contents |
| HuffmanArchive.DecodeEntry | Form1.cs:1270-1275 | a matching entry is decoded as specified |
| HuffmanArchive.ExtractFromStep | Form1.cs:1243-1277 | an extraction pass fails, decodes a match, or continues after a non-match |
| HuffmanArchive.ExtractPass | Form1.cs:1245-1276 | one pass keeps the extraction invariant |
| HuffmanArchive.ExtractSingleFile | Form1.cs:1229-1282 | the loop computes the specified extraction |
| HuffmanArchive.EntryLayout | Form1.cs:1340-1356 | a written entry's fields lie one after the other |
| HuffmanArchive.RecordBytesAt | Form1.cs:1349-1353 | record k's byte and count sit at offset 5k |
| HuffmanArchive.RecordFirst | Form1.cs:1351-1352 | the first record, then the other records |
| HuffmanArchive.RecordsStoredAt | Form1.cs:1349-1353 | every written record sits at its offset |
| HuffmanArchive.RecordsTableAt | Form1.cs:1362-1367 | storing written records with distinct keys rebuilds the table in order |
| HuffmanArchive.FreshRecordKey | Form1.cs:1366 | each record's key is new when stored |
| HuffmanArchive.FieldsReadBack | Form1.cs:1340-1356 | every written field of an entry is read back as written |
| HuffmanArchive.HeadReadBack | Form1.cs:1344-1348 | path, size and record count are read back |
| HuffmanArchive.TableReadBack | Form1.cs:1358-1369 | the table is read back by every reader, ending at the payload |
| HuffmanArchive.WrittenTable | Form1.cs:1362-1367 | storing written records with distinct bytes rebuilds the table written |
| HuffmanArchive.RecordsNoneAt | Form1.cs:1362-1363 | no records: nothing is read and the loop stops where it started |
| HuffmanArchive.RecordsEndAt | Form1.cs:1362-1367 | records that fit are all read, and the loop stops right after them |
| HuffmanArchive.CountsFitTail | Form1.cs:1349-1353 | the records after the first fit their int32 fields too |
| HuffmanArchive.TablesOf | Form1.cs:1358-1369 | checked and unchecked table reads agree on a written table |
| HuffmanArchive.ReadEntryOf | Form1.cs:1248-1268 | a written entry is read back whole |
| HuffmanArchive.ListedEntryOf | Form1.cs:985-1005 | a written entry lists its path and ends after the payload |
| HuffmanArchive.DecompressEntryOf | Form1.cs:1183-1195 | decompressing a written entry reaches the decode step with its fields |
| HuffmanArchive.DecompressEntryHead | Form1.cs:1183-1195 | after reading a path, a size and a table, a decompression pass goes on to decode with exactly those |
| HuffmanArchive.DecodeTailOf | Form1.cs:1190-1200 | a decodable written entry outputs (base name, bytes) |
| HuffmanArchive.Names | Form1.cs:989 | the stored paths of the entries, in order |
| HuffmanArchive.NamesAfter | Form1.cs:989 | listing the first path then the rest lists them all |
| HuffmanArchive.EntriesAt | Form1.cs:1133-1137 | the first written entry, then the rest |
| HuffmanArchive.FirstFields | Form1.cs:1340-1356 | the first written entry's fields read back, the rest follows |
| HuffmanArchive.FirstEntryRead | Form1.cs:1340-1356 | the same, for readable entries |
| HuffmanArchive.ListedFirst | Form1.cs:985-1005 | the first entry lists its path, the rest follows |
| HuffmanArchive.ListFromAt | Form1.cs:983-1006 | listing written entries gives their paths in order |
| HuffmanArchive.ArchiveAt | Form1.cs:1132-1137 | the archive's count is read back and the entries follow it |
| HuffmanArchive.FileListRoundTrip | Form1.cs:970-1016 | listing a written archive gives every stored path, in archive order |
| HuffmanArchive.FirstDecompressRead | Form1.cs:1183-1195 | the first entry reaches its decode step, the rest follows its payload |
| HuffmanArchive.RestoredWritable | Form1.cs:1340-1356 | entries that restore their files are writable |
| HuffmanArchive.DecompressedHead | Form1.cs:1183-1200 | with the corrected decoder, the first written entry decompresses to its file under its base name |
| HuffmanArchive.AllRestoreTail | Form1.cs:1091-1109 | the first entry restores the first file and the rest the rest |
| HuffmanArchive.DecompressFromAt | Form1.cs:1178-1213 | decompressing written entries outputs every file in order |
| HuffmanArchive.DecompressRoundTrip | Form1.cs:1159-1227 | with the corrected decoder, decompressing the archive of compressed files outputs every file, named by its base name, in order |
| HuffmanArchive.FirstEntryReadBack | Form1.cs:1248-1268 | the first written entry is read back whole |
| HuffmanArchive.ExtractFromFirst | Form1.cs:1248-1276 | a matching first entry gives its file; otherwise the search goes on after it |
| HuffmanArchive.ExtractFromAt | Form1.cs:1243-1280 | searching written entries gives the first matching file, or none |
| HuffmanArchive.ExtractRoundTrip | Form1.cs:1229-1282 | with the corrected decoder, extraction from the archive gives the first file whose base name matches ignoring case, or false |
| HuffmanArchive.PickedFilesRoundTrip | Form1.cs:1091-1109 | with the corrected decoder, an archive of picked files lists their base names and decompresses to each file under its base name, when no base name begins with a drive |
| ShannonFanoArchive.CompressEntry | Form1.cs:1607-1613 | an entry keeps the stored name and the size, has one record per distinct byte, and an empty payload exactly for an empty file |
| ShannonFanoArchive.Payload | Form1.cs:1843-1846 | the packed codes are empty exactly when the file is |
| ShannonFanoArchive.PayloadFacts | Form1.cs:1843-1844 | the code table covers the file, and a non-empty file encodes to a non-empty bit string |
| ShannonFanoArchive.CompressAll | Form1.cs:1600-1613 | one entry per (stored name, contents) pair, in input order, with its name and size |
| ShannonFanoArchive.EntryOf | Form1.cs:1607-1613 | the entry of one (stored name, contents) pair keeps its name and size |
| ShannonFanoArchive.CompressEntryDecodes | Form1.cs:1608 | an entry's payload decompresses, with its table and size, to the file |
| ShannonFanoArchive.CompressFile | Form1.cs:1607-1613 | one loop pass computes the entry of the file under its path's base name |
| ShannonFanoArchive.CompressFiles | Form1.cs:1600-1627 | the loop computes one entry per picked file, under its base name, in input order |
| ShannonFanoArchive.CompressAllSnoc | Form1.cs:1600-1613 | the entries of the first i + 1 files extend those of the first i |
| ShannonFanoArchive.CompressAllTail | Form1.cs:1600-1613 | the entries after the first are those of the remaining files |
| ShannonFanoArchive.BitsAreAscii | Form1.cs:1825 | binary codes are ASCII |
| ShannonFanoArchive.CodeTableAscii | Form1.cs:1822-1826 | every code written with `Write(string)` is ASCII |
| ShannonFanoArchive.CompressedReadable | Form1.cs:1608 | compressed entries have distinct table keys |
| ShannonFanoArchive.RecordBytes | Form1.cs:1822-1826 | at least 2 bytes per record |
| ShannonFanoArchive.TableBytes | Form1.cs:1821-1826 | the record count as an int32, then at least 2 bytes per record |
| ShannonFanoArchive.EntryBytes | Form1.cs:1813-1829 | an entry is at least 16 bytes plus name and payload |
| ShannonFanoArchive.EntriesBytes | Form1.cs:1638-1642 | the entries, one after another, at least 16 bytes each |
| ShannonFanoArchive.FirstEntryThenRest | Form1.cs:1638-1642 | the first entry then the others, at least 16 bytes each |
| ShannonFanoArchive.ArchiveBytes | Form1.cs:1637-1642 | the archive starts with the entry count as an int32, then at least 16 bytes per entry |
| ShannonFanoArchive.CodesFitTail | Form1.cs:1822-1826 | the records after the first fit their fields too |
| ShannonFanoArchive.Codes | Form1.cs:1695-1700 | the record loop never moves backwards |
| ShannonFanoArchive.CodeRecord | Form1.cs:1697-1699 | one record pass never moves backwards |
| ShannonFanoArchive.SkipFrom | Form1.cs:1510-1514 | the skipping loop never moves backwards |
| ShannonFanoArchive.SkipRecord | Form1.cs:1512-1513 | one skipping pass never moves backwards |
| ShannonFanoArchive.SkipFromAgrees | Form1.cs:1771-1775 | skipping records fails where reading them fails, with the same error, and stops where reading stops |
| ShannonFanoArchive.ReadEntry | Form1.cs:1685-1705 | a read entry spans at least its 16 fixed bytes, inside the data |
| ShannonFanoArchive.ListedEntry | Form1.cs:1501-1519 | a listed entry spans at least its 16 fixed bytes, inside the data |
| ShannonFanoArchive.DecompressEntry | Form1.cs:1685-1711 | a decompressed entry spans at least its 16 fixed bytes, inside the data |
| ShannonFanoArchive.ExtractedFile | Form1.cs:1739-1810 | extraction throws iff the entry count is bad; any later failure is caught |
| ShannonFanoArchive.FailingEntryStopsSearch | Form1.cs:1801-1806 | an entry that throws is retried by every later pass, so the search ends with false |
| ShannonFanoArchive.ReadCodeRecords | Form1.cs:1695-1700 | the record loop computes the specified ordered table |
| ShannonFanoArchive.SkipCodeRecords | Form1.cs:1510-1514 | the skipping loop computes the specified end |
| ShannonFanoArchive.ListFrom | Form1.cs:1499-1520 | a successful listing keeps the paths listed so far and adds one per remaining entry |
| ShannonFanoArchive.ListEntry | Form1.cs:1501-1519 | one listing pass and the rest of the loop add one path per remaining entry |
| ShannonFanoArchive.FileList | Form1.cs:1486-1530 | a successful listing has one path per entry the archive's count announces |
| ShannonFanoArchive.SkipEntry | Form1.cs:1501-1519 | one listing pass reads the specified fields and keeps the path |
| ShannonFanoArchive.ListFromStep | Form1.cs:1499-1520 | a listing pass either fails or lists the path and continues after the entry |
| ShannonFanoArchive.ListPass | Form1.cs:1501-1519 | one pass keeps the listing invariant |
| ShannonFanoArchive.GetFileList | Form1.cs:1486-1530 | the loop computes the listing |
| ShannonFanoArchive.ReadEntryFields | Form1.cs:1685-1705 | the reads of one decompression pass compute the specified entry |
| ShannonFanoArchive.DecompressFrom | Form1.cs:1680-1724 | a successful decompression keeps the outputs so far and adds one plainly named file per remaining entry |
| ShannonFanoArchive.DecompressNext | Form1.cs:1685-1723 | one pass and the rest of the loop add one plainly named file per remaining entry |
| ShannonFanoArchive.DecompressedFiles | Form1.cs:1663-1737 | a successful decompression writes one file per announced entry, each named without a directory |
| ShannonFanoArchive.DecompressOne | Form1.cs:1685-1711 | one decompression pass computes the specified output |
| ShannonFanoArchive.DecompressFromStep | Form1.cs:1680-1724 | a decompression pass either fails or outputs one file and continues |
| ShannonFanoArchive.DecompressPass | Form1.cs:1685-1723 | one pass keeps the decompression invariant |
| ShannonFanoArchive.DecompressAll | Form1.cs:1663-1737 | the loop computes the specified outputs |
| ShannonFanoArchive.ExtractStepFound | Form1.cs:1760-1800 | a pass of the `try` body (ExtractStep) that completes has read a path, and found the file exactly when the path matches |
| ShannonFanoArchive.SkipRest | Form1.cs:1767-1778 | the differing branch, which ends in the `stream.Position += compressedSize` seek, never reports a file found |
| ShannonFanoArchive.DecodeRest | Form1.cs:1781-1796 | the matching branch reports a file found, of exactly the recorded size |
| ShannonFanoArchive.ExtractFromFound | Form1.cs:1753-1807 | whatever the search (ExtractFrom, ExtractNext) returns is the decoded file of an entry whose path matches |
| ShannonFanoArchive.Search | Form1.cs:1753-1807 | the loop, for one requested file, computes that search |
| ShannonFanoArchive.TryEntry | Form1.cs:1760-1800 | the body of the try computes the specified step |
| ShannonFanoArchive.ExtractFromStep | Form1.cs:1753-1807 | a pass that throws is retried at the same entry; a match stops; a non-match continues after the payload |
| ShannonFanoArchive.ExtractPass | Form1.cs:1755-1806 | one pass keeps the extraction invariant |
| ShannonFanoArchive.ExtractSingleFile | Form1.cs:1739-1811 | the loop computes the specified extraction |
| ShannonFanoArchive.CodesStep | Form1.cs:1697-1699 | one record is stored, then the loop continues |
| ShannonFanoArchive.RecordsAt | Form1.cs:1695-1700 | reading written records with distinct keys appends them in order, ending after them |
| ShannonFanoArchive.FreshRecord | Form1.cs:1699 | storing a record with a new key appends it |
| ShannonFanoArchive.RecordAt | Form1.cs:1824-1825 | the first written record is read back, the rest follows |
| ShannonFanoArchive.EntryLayout | Form1.cs:1813-1829 | a written entry's fields lie one after the other |
| ShannonFanoArchive.FieldsReadBack | Form1.cs:1813-1829 | every written field of an entry is read back as written |
| ShannonFanoArchive.NameReadBack | Form1.cs:1817-1819 | the path is read back |
| ShannonFanoArchive.SizeReadBack | Form1.cs:1820 | the original size is read back |
| ShannonFanoArchive.CountReadBack | Form1.cs:1821 | the record count is read back |
| ShannonFanoArchive.RecordsReadBack | Form1.cs:1822-1826 | the records are read back by both record loops, ending at the payload |
| ShannonFanoArchive.PayloadReadBack | Form1.cs:1827-1828 | the payload is read back |
| ShannonFanoArchive.DecompressEntryOf | Form1.cs:1685-1711 | a written entry is read back and decompresses to (base name, bytes) |
| ShannonFanoArchive.ReadEntryOf | Form1.cs:1685-1705 | a written entry is read back whole |
| ShannonFanoArchive.ListedEntryOf | Form1.cs:1501-1519 | a written entry lists its path and ends after the payload |
| ShannonFanoArchive.ExtractHeadSkip | Form1.cs:1762-1768 | after a written entry's path, size and count, a path that does not match takes the skipping branch |
| ShannonFanoArchive.ExtractHeadFound | Form1.cs:1762-1783 | after a written entry's path, size and count, a matching path takes the decoding branch |
| ShannonFanoArchive.SkipRestOf | Form1.cs:1771-1778 | the skipping branch steps over a table and a payload that read back, to the end of the payload |
| ShannonFanoArchive.ExtractSkipOf | Form1.cs:1767-1778 | a non-matching written entry is skipped to its end |
| ShannonFanoArchive.ExtractFoundOf | Form1.cs:1781-1796 | a matching written entry is decoded |
| ShannonFanoArchive.DecodeRestOf | Form1.cs:1781-1796 | the decoding branch reads the written table and payload and decompresses them |
| ShannonFanoArchive.Names | Form1.cs:1505 | the stored paths of the entries, in order |
| ShannonFanoArchive.NamesAfter | Form1.cs:1505 | listing the first path then the rest lists them all |
| ShannonFanoArchive.EntriesAt | Form1.cs:1638-1642 | the first written entry, then the rest |
| ShannonFanoArchive.FirstEntryRead | Form1.cs:1813-1829 | the first written entry's fields read back, the rest follows |
| ShannonFanoArchive.ListedFirst | Form1.cs:1501-1519 | the first entry lists its path, the rest follows |
| ShannonFanoArchive.DecompressedHead | Form1.cs:1685-1711 | the first written entry decompresses, the rest follows |
| ShannonFanoArchive.ExtractedSkip | Form1.cs:1767-1778 | a non-matching first entry is skipped, the rest follows |
| ShannonFanoArchive.ExtractedFound | Form1.cs:1781-1799 | a matching first entry is decoded |
| ShannonFanoArchive.ListFromAt | Form1.cs:1499-1520 | listing written entries gives their paths in order |
| ShannonFanoArchive.ArchiveAt | Form1.cs:1637-1642 | the archive's count is read back and the entries follow it |
| ShannonFanoArchive.FileListRoundTrip | Form1.cs:1486-1530 | listing a written archive gives every stored path, in archive order |
| ShannonFanoArchive.DecompressedFirst | Form1.cs:1685-1711 | the first compressed file's entry decompresses to it under its base name |
| ShannonFanoArchive.DecompressFromFirst | Form1.cs:1680-1724 | the first file is output, then the loop continues after its entry |
| ShannonFanoArchive.DecompressFromAt | Form1.cs:1680-1724 | decompressing written entries outputs every file in order |
| ShannonFanoArchive.DecompressRoundTrip | Form1.cs:1663-1737 | decompressing the archive of compressed files outputs every file, named by its base name, in order |
| ShannonFanoArchive.ExtractedFirst | Form1.cs:1760-1800 | a matching first entry gives its file; otherwise it is skipped |
| ShannonFanoArchive.ExtractFromAt | Form1.cs:1753-1807 | searching written entries gives the first matching file, or none |
| ShannonFanoArchive.ExtractFromCons | Form1.cs:1753-1807 | a first step that finds the first file when it matches, and otherwise skips to a search finding the others' first match, finds the first match of all |
| ShannonFanoArchive.ExtractRoundTrip | Form1.cs:1739-1811 | extraction from the archive gives the first file whose base name matches ignoring case, or false |
| ShannonFanoArchive.PickedFilesRoundTrip | Form1.cs:1600-1613 | an archive of picked files lists their base names and decompresses to each file under its base name, when no base name begins with a drive |

## Left out

- The WinForms user interface: the form handlers, dialogs, progress bar and controls state (Form1.cs:15-923). It is presentation, not compression.
- Encryption and decryption of archives (Form1.cs:626-717). They are calls into .NET's AES and PBKDF2 implementations.
- Pause, cancel and the async machinery: `checkPause`, cancellation tokens, `Task.Run` and the `lock` around the entry list. This is concurrency; the model runs each loop sequentially.
- File-system work: reading the input files, creating, writing and deleting files, `Directory.CreateDirectory`, `File.Exists`. The inputs of the compression loops are (path, contents) pairs, which the loops store under the path's base name (Form1.cs:1104, 1609). The outputs are (file name, contents) pairs.
- The folder compressors (`CompressFolderAsync`, Form1.cs:1018-1073 and 1532-1582). Their relative paths come from `Uri` arithmetic on real directories.
- The re-sort of the compressed entries before writing (Form1.cs:1126-1127, 1631-1632). It keys on `Array.IndexOf` of the stored file name joined to the directory of the first input, which depends on real paths. The model keeps the entries in input order. That is what the sort gives when every input lies in the directory of the first one, as files picked together in one open-file dialog do. For an input elsewhere `Array.IndexOf` returns -1, and the sort moves its entry to the front; this is not modelled.
- The progress percentages, compression ratios, size and time formatting, and the stopwatch. These are floating-point reporting.
- The unused duplicate Huffman helpers inside `ShannonFanoHelper` (Form1.cs:1415-1484). They are copies of the modelled ones.
- PriorityQueues.PriorityQueue.Enqueue: `List.Sort` is an unstable sort. The model puts a new item after items of equal priority. `Dequeue` is specified to return an item of least priority, which holds for any tie order, but the exact tree built on ties follows this choice.
- ArchiveNames.MatchesFile: `OrdinalIgnoreCase` is modelled by ASCII case folding on the UTF-8 bytes. Non-ASCII case folding is not modelled.
- BinaryFormat.ReadString: strings are read as one character per byte, which is UTF-8 decoding for ASCII. The codes written are ASCII, as ShannonFanoArchive.CodeTableAscii proves. Multi-byte UTF-8 decoding of arbitrary strings is not modelled.
- Paths are kept as their UTF-8 bytes. The `GetString`/`GetBytes` conversions are identity maps in the model.
- HuffmanArchive.DecompressRoundTrip and ShannonFanoArchive.DecompressRoundTrip (and their ExtractRoundTrip and FileListRoundTrip siblings) assume that every length and count fits in an int32 (`AllWritable`, at most `Int32Max` entries). `BinaryWriter` would truncate or throw beyond that, and this is not modelled.
- ShannonFano.SplitPoint: the split is clamped to leave the last symbol on the right. On descending counts it equals the source's split (ShannonFano.SplitInRange). It differs only on inputs where the source would recurse forever, and BuildTable never produces those.
- HuffmanArchive.DecompressAll, HuffmanArchive.ExtractSingleFile, HuffmanArchive.DecompressEntry, HuffmanArchive.DecodeTail, HuffmanArchive.DecompressOne, HuffmanArchive.DecodeEntry and HuffmanArchive.ExtractMatch decode with the corrected decoder (Huffman.DecodePayload, Huffman.DecodeFixed), not the decoder as written. As written, an archive holding a file of one repeated byte throws at Form1.cs:1200 and 1274 (via 1385-1387), where these members return the file; see Findings.
- ArchiveNames.BaseName: models `Path.GetFileName` of .NET Core on Windows. .NET Framework instead cuts at the last '\\', '/' or ':' without computing the root (so "\\\\server\\share" gives "share" there), and throws on invalid path characters; neither is modelled.
- ArchiveNames.BaseNameIdempotent: taking the base name twice is not the same as once when the base name itself begins with a drive ("C:D:x" gives "D:x", then "x"); the lemma excludes that case.
- ArchiveNames.BaseNameAfterSeparator: a path that begins as a UNC or device path has a root that can swallow the name; the lemma excludes those paths.
- BinaryFormat.Read7BitFrom: models the .NET Core rule that a fifth byte above 15 is an error. .NET Framework accepts a fifth byte up to 127 and keeps only its low four bits; that behaviour is not modelled.
- Exception messages and the wrapping of exceptions into `InvalidDataException` are not modelled; an error names only its cause.

## Findings

| source | as written | input that shows it | evidently intended | confidence | as-written member | corrected member |
|---|---|---|---|---|---|---|
| Form1.cs:1385-1387 | a file of one repeated byte builds a lone-leaf tree, which BuildTableRecursive gives the code "0" (Form1.cs:1317); DecodeData steps from that leaf to a missing child and throws | the one-byte file [65]: it encodes to "0", packs to [0], and decoding throws InvalidDataException | every file the Huffman compressor writes decodes back: the compressor accepts a file of one repeated byte (Form1.cs:1098-1109), and the Shannon-Fano path restores such a file (ShannonFano.ShannonFanoRoundTrip) | not executed | Huffman.LoneLeafDecodeFails (decoder Huffman.DecodeBits / Huffman.DecodeData) | Huffman.HuffmanRoundTripFixed (decoder Huffman.DecodeFixed / Huffman.DecodePayload, used by the archive decoders) |
