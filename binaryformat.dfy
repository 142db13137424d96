/*
 * The little-endian encodings of .NET's BinaryWriter and BinaryReader that
 * the archive format is made of: Write(int) / ReadInt32, Write(byte) /
 * ReadByte, Write(byte[]) / ReadBytes, and Write(string) / ReadString with
 * its 7-bit encoded length prefix. A reader is a function of the archive
 * bytes and a stream position; it returns the value read and the position
 * after it, or the exception the reader throws.
 */
module BinaryFormat {
  import opened Common

  /** The bytes `s` occur in `data` at position `pos`. */
  predicate At(data: seq<Byte>, pos: nat, s: seq<Byte>) {
    pos + |s| <= |data| && data[pos..pos + |s|] == s
  }

  /** A whole byte sequence occurs at its own start. */
  lemma AtWhole(data: seq<Byte>)
    ensures At(data, 0, data)
  {
    assert data[0..|data|] == data;
  }

  /** Where `a + b` occurs, `a` occurs, and `b` right after it. */
  lemma AtSplit(data: seq<Byte>, pos: nat, a: seq<Byte>, b: seq<Byte>)
    requires At(data, pos, a + b)
    ensures At(data, pos, a) && At(data, pos + |a|, b)
  {
    var whole := data[pos..pos + |a| + |b|];
    assert whole == a + b;
    assert data[pos..pos + |a|] == whole[..|a|];
    assert data[pos + |a|..pos + |a| + |b|] == whole[|a|..];
  }

  /** Where three parts written one after the other occur, each part occurs at the positions `p1` and `p2`. */
  lemma AtSplit3(data: seq<Byte>, pos: nat, a: seq<Byte>, b: seq<Byte>, c: seq<Byte>, p1: nat, p2: nat)
    requires At(data, pos, a + (b + c)) && p1 == pos + |a| && p2 == p1 + |b|
    ensures At(data, pos, a) && At(data, p1, b) && At(data, p2, c)
  {
    AtSplit(data, pos, a, b + c);
    AtSplit(data, p1, b, c);
  }

  /** Where one byte occurs, it is the byte at that position. */
  lemma AtByte(data: seq<Byte>, pos: nat, b: Byte)
    requires At(data, pos, [b])
    ensures pos < |data| && data[pos] == b
  {
    assert data[pos] == data[pos..pos + 1][0];
  }

  /** Where four parts written one after the other occur, each part occurs right after the one before. */
  lemma AtSplit4(data: seq<Byte>, pos: nat, a: seq<Byte>, b: seq<Byte>, c: seq<Byte>, d: seq<Byte>)
    requires At(data, pos, a + (b + (c + d)))
    ensures At(data, pos, a) && At(data, pos + |a|, b)
    ensures At(data, pos + |a| + |b|, c) && At(data, pos + |a| + |b| + |c|, d)
  {
    AtSplit(data, pos, a, b + (c + d));
    AtSplit(data, pos + |a|, b, c + d);
    AtSplit(data, pos + |a| + |b|, c, d);
  }

  /**
   * Where an entry's five parts are written one after the other, each part
   * occurs right after the one before, at the positions `p1` to `p4`.
   */
  lemma AtSplit5(data: seq<Byte>, pos: nat, a: seq<Byte>, b: seq<Byte>, c: seq<Byte>, d: seq<Byte>, f: seq<Byte>,
                 p1: nat, p2: nat, p3: nat, p4: nat)
    requires At(data, pos, a + (b + ((c + d) + f)))
    requires p1 == pos + |a| && p2 == p1 + |b| && p3 == p2 + |c| && p4 == p3 + |d|
    ensures At(data, pos, a) && At(data, p1, b) && At(data, p2, c) && At(data, p3, d) && At(data, p4, f)
  {
    AtSplit4(data, pos, a, b, c + d, f);
    AtSplit(data, p2, c, d);
  }

  /*
   * Write(int) and ReadInt32: four bytes, least significant first, the
   * value in two's complement.
   */

  /** BinaryWriter.Write(int). */
  function Int32Bytes(x: int): (bs: seq<Byte>)
    requires IsInt32(x)
    ensures |bs| == 4
  {
    var u := if x < 0 then x + TwoTo32 else x;
    [u % 256, u / 256 % 256, u / 256 / 256 % 256, u / 256 / 256 / 256 % 256]
  }

  /** The int of four bytes, least significant first, read as two's complement. */
  function Int32Of(b0: Byte, b1: Byte, b2: Byte, b3: Byte): (x: int)
    ensures IsInt32(x)
  {
    var u: int := b0 as int + 256 * (b1 as int + 256 * (b2 as int + 256 * b3 as int));
    if u >= TwoTo31 then u - TwoTo32 else u
  }

  /** The int of a four-byte sequence. */
  function Int32Value(bs: seq<Byte>): (x: int)
    requires |bs| == 4
  {
    Int32Of(bs[0], bs[1], bs[2], bs[3])
  }

  /** The int of the four bytes of `data` at `pos`. */
  function Int32At(data: seq<Byte>, pos: nat): (x: int)
    requires pos + 4 <= |data|
  {
    Int32Of(data[pos], data[pos + 1], data[pos + 2], data[pos + 3])
  }

  /** The int at `pos` is the int of the four bytes there. */
  lemma Int32AtValue(data: seq<Byte>, pos: nat)
    requires pos + 4 <= |data|
    ensures Int32At(data, pos) == Int32Value(data[pos..pos + 4])
  {
    var bs := data[pos..pos + 4];
    assert bs[0] == data[pos] && bs[1] == data[pos + 1] && bs[2] == data[pos + 2] && bs[3] == data[pos + 3];
  }

  /** BinaryReader.ReadInt32. */
  function ReadInt32(data: seq<Byte>, pos: nat): (r: Result<Read<int>>)
    ensures r.Ok? <==> pos + 4 <= |data|
    ensures r.Ok? ==> IsInt32(r.value.value) && r.value.next == pos + 4
    ensures r.Err? ==> r.error == EndOfStream
  {
    if pos + 4 > |data| then Err(EndOfStream) else Ok(Read(Int32At(data, pos), pos + 4))
  }

  /** ReadInt32 gives back the int that Write(int) wrote. */
  lemma Int32RoundTrip(x: int)
    requires IsInt32(x)
    ensures Int32Value(Int32Bytes(x)) == x
  {
    var u := if x < 0 then x + TwoTo32 else x;
    var q1 := u / 256;
    var q2 := q1 / 256;
    var q3 := q2 / 256;
    assert u == u % 256 + 256 * q1;
    assert q1 == q1 % 256 + 256 * q2;
    assert q2 == q2 % 256 + 256 * q3;
    assert q3 < 256;
    var bs := Int32Bytes(x);
    assert bs == [u % 256, q1 % 256, q2 % 256, q3];
    assert bs[0] as int + 256 * (bs[1] as int + 256 * (bs[2] as int + 256 * bs[3] as int)) == u;
  }

  /** Every four bytes are what Write(int) writes for the int ReadInt32 reads from them. */
  lemma Int32BytesOfValue(bs: seq<Byte>)
    requires |bs| == 4
    ensures Int32Bytes(Int32Value(bs)) == bs
  {
    var u: int := bs[0] as int + 256 * (bs[1] as int + 256 * (bs[2] as int + 256 * bs[3] as int));
    var q1: int := bs[1] as int + 256 * (bs[2] as int + 256 * bs[3] as int);
    var q2: int := bs[2] as int + 256 * bs[3] as int;
    DivMod256(bs[0] as int, q1);
    DivMod256(bs[1] as int, q2);
    DivMod256(bs[2] as int, bs[3] as int);
  }

  /** A byte plus 256 times `q`, split back into `q` and the byte. */
  lemma DivMod256(lo: int, q: int)
    requires 0 <= lo < 256
    ensures (lo + 256 * q) / 256 == q && (lo + 256 * q) % 256 == lo
  {
  }

  lemma ReadInt32At(data: seq<Byte>, pos: nat, x: int)
    requires IsInt32(x) && At(data, pos, Int32Bytes(x))
    ensures ReadInt32(data, pos) == Ok(Read(x, pos + 4))
  {
    Int32RoundTrip(x);
    Int32AtValue(data, pos);
  }

  /** BinaryReader.ReadByte. */
  function ReadByte(data: seq<Byte>, pos: nat): (r: Result<Read<Byte>>)
    ensures r.Ok? <==> pos < |data|
    ensures r.Ok? ==> r.value == Read(data[pos], pos + 1)
    ensures r.Err? ==> r.error == EndOfStream
  {
    if pos < |data| then Ok(Read(data[pos], pos + 1)) else Err(EndOfStream)
  }

  /**
   * BinaryReader.ReadBytes(count): a negative count throws; otherwise it
   * returns the `count` bytes at `pos`, or only those left before the end
   * of the stream, and never throws for a short read.
   */
  function ReadBytes(data: seq<Byte>, pos: nat, count: int): (r: Result<Read<seq<Byte>>>)
    ensures r.Ok? <==> count >= 0
    ensures r.Err? ==> r.error == NegativeByteCount(count)
    ensures r.Ok? ==> |r.value.value| <= count && r.value.next == pos + |r.value.value|
    ensures r.Ok? && pos + count <= |data| ==> r.value.value == data[pos..pos + count]
    ensures r.Ok? && pos + count > |data| ==> r.value.value == (if pos < |data| then data[pos..] else [])
  {
    if count < 0 then Err(NegativeByteCount(count))
    else if pos >= |data| then Ok(Read([], pos))
    else if pos + count <= |data| then Ok(Read(data[pos..pos + count], pos + count))
    else Ok(Read(data[pos..], |data|))
  }

  lemma ReadBytesAt(data: seq<Byte>, pos: nat, s: seq<Byte>)
    requires At(data, pos, s)
    ensures ReadBytes(data, pos, |s|) == Ok(Read(s, pos + |s|))
  {
  }

  /*
   * Write(string) and ReadString: the string's UTF-8 byte count as a
   * 7-bit encoded int (seven bits per byte, least significant group first,
   * the high bit set on every byte but the last), then the bytes.
   */

  /** Write7BitEncodedInt for a non-negative int. */
  function SevenBit(n: nat): (bs: seq<Byte>)
    ensures 1 <= |bs|
    decreases n
  {
    if n < 128 then [n] else [n % 128 + 128] + SevenBit(n / 128)
  }

  /** 128 to the power `k`, for the five byte positions of a 7-bit encoded int. */
  function Pow128(k: nat): (p: nat)
    ensures p >= 1
  {
    if k == 0 then 1 else 128 * Pow128(k - 1)
  }

  lemma Pow128Bound(k: nat)
    requires k <= 4
    ensures Pow128(k) <= Pow128(4) == 0x1000_0000
    decreases 4 - k
  {
    if k < 4 {
      Pow128Bound(k + 1);
    }
  }

  lemma ScaleBelow(a: int, b: int, p: int)
    requires 0 <= a <= b && p >= 0
    ensures a * p <= b * p
  {
    assert b * p == a * p + (b - a) * p;
  }

  /** The C# cast `(int)u` of a uint. */
  function AsInt32(u: int): (x: int)
    requires 0 <= u < TwoTo32
    ensures IsInt32(x)
  {
    if u >= TwoTo31 then u - TwoTo32 else u
  }

  /**
   * Read7BitEncodedInt from its `k`-th byte on, with `acc` holding the
   * groups read so far: the first four bytes each add seven bits and stop
   * the read when their high bit is clear; the fifth may only hold four
   * bits, else the read throws.
   */
  function Read7BitFrom(data: seq<Byte>, pos: nat, k: nat, acc: int): (r: Result<Read<int>>)
    requires k <= 4 && 0 <= acc < Pow128(k)
    ensures r.Ok? ==> IsInt32(r.value.value) && pos < r.value.next <= pos + 5 - k
    decreases 4 - k
  {
    if pos >= |data| then Err(EndOfStream)
    else
      var b := data[pos];
      if k < 4 then
        var sum := acc + b % 128 * Pow128(k);
        assert sum < Pow128(k + 1) <= Int32Max by {
          ScaleBelow(b % 128, 127, Pow128(k));
          Pow128Bound(k + 1);
        }
        if b < 128 then Ok(Read(sum, pos + 1)) else Read7BitFrom(data, pos + 1, k + 1, sum)
      else if b > 15 then Err(Bad7BitInt)
      else Ok(Read(AsInt32(acc + b * Pow128(4)), pos + 1))
  }

  /** BinaryReader.Read7BitEncodedInt. */
  function Read7BitInt(data: seq<Byte>, pos: nat): (r: Result<Read<int>>)
    ensures r.Ok? ==> IsInt32(r.value.value) && pos < r.value.next <= pos + 5
  {
    Read7BitFrom(data, pos, 0, 0)
  }

  /** Reading the 7-bit encoding of `m` from the `k`-th byte on completes `acc` with `m`'s groups. */
  lemma {:induction false} Read7BitAt(data: seq<Byte>, pos: nat, k: nat, acc: int, m: nat, total: int)
    requires k <= 4 && 0 <= acc < Pow128(k)
    requires total == acc + m * Pow128(k) && total <= Int32Max
    requires At(data, pos, SevenBit(m))
    ensures Read7BitFrom(data, pos, k, acc) == Ok(Read(total, pos + |SevenBit(m)|))
    decreases m, 1
  {
    if m < 128 {
      Read7BitLast(data, pos, k, acc, m, total);
    } else {
      Read7BitMore(data, pos, k, acc, m, total);
    }
  }

  /** A group of 128 or more: its first byte carries seven bits and the high bit, the rest follows. */
  lemma {:induction false} Read7BitMore(data: seq<Byte>, pos: nat, k: nat, acc: int, m: nat, total: int)
    requires k <= 4 && 0 <= acc < Pow128(k) && m >= 128
    requires total == acc + m * Pow128(k) && total <= Int32Max
    requires At(data, pos, SevenBit(m))
    ensures Read7BitFrom(data, pos, k, acc) == Ok(Read(total, pos + |SevenBit(m)|))
    decreases m, 0
  {
    var low, high := m % 128, m / 128;
    var sum := SevenBitCarry(k, acc, m, total);
    SevenBitHead(data, pos, m, low, high);
    Read7BitAt(data, pos + 1, k + 1, sum, high, total);
    Read7BitStep(data, pos, k, acc, low, sum);
  }

  /** Where the encoding of `m >= 128` occurs, its first byte holds the low seven bits, the high ones follow. */
  lemma SevenBitHead(data: seq<Byte>, pos: nat, m: nat, low: nat, high: nat)
    requires m >= 128 && low == m % 128 && high == m / 128
    requires At(data, pos, SevenBit(m))
    ensures low < 128 && data[pos] == low + 128 && At(data, pos + 1, SevenBit(high))
    ensures |SevenBit(m)| == 1 + |SevenBit(high)|
  {
    AtSplit(data, pos, [low + 128], SevenBit(high));
  }

  /** A byte with its high bit set adds its seven low bits and moves on to the next byte. */
  lemma Read7BitStep(data: seq<Byte>, pos: nat, k: nat, acc: int, low: nat, sum: int)
    requires k < 4 && 0 <= acc < Pow128(k) && low < 128 && pos < |data| && data[pos] == low + 128
    requires sum == acc + low * Pow128(k) && sum < Pow128(k + 1)
    ensures Read7BitFrom(data, pos, k, acc) == Read7BitFrom(data, pos + 1, k + 1, sum)
  {
    assert data[pos] % 128 == low;
  }

  /** A group of 128 or more leaves a carry: the low seven bits join `acc`, the rest is read next. */
  lemma SevenBitCarry(k: nat, acc: int, m: nat, total: int) returns (sum: int)
    requires k <= 4 && 0 <= acc < Pow128(k) && m >= 128
    requires total == acc + m * Pow128(k) && total <= Int32Max
    ensures k < 4 && sum == acc + m % 128 * Pow128(k)
    ensures 0 <= sum < Pow128(k + 1) && total == sum + m / 128 * Pow128(k + 1)
  {
    var p := Pow128(k);
    var low, high := m % 128, m / 128;
    ScaleBelow(128, m, p);
    sum := acc + low * p;
    assert high * (128 * p) == (128 * high) * p;
    assert low * p + (128 * high) * p == (low + 128 * high) * p;
    ScaleBelow(low, 127, p);
  }

  /** A group below 128 is the last byte of the encoding. */
  lemma Read7BitLast(data: seq<Byte>, pos: nat, k: nat, acc: int, m: nat, total: int)
    requires k <= 4 && 0 <= acc < Pow128(k) && m < 128
    requires total == acc + m * Pow128(k) && total <= Int32Max
    requires At(data, pos, SevenBit(m))
    ensures Read7BitFrom(data, pos, k, acc) == Ok(Read(total, pos + 1))
  {
    assert data[pos] == m;
  }

  /** The characters of an ASCII string. */
  predicate IsAscii(s: string) {
    forall i :: 0 <= i < |s| ==> s[i] < 128 as char
  }

  /** Encoding.UTF8.GetBytes of an ASCII string: one byte per character. */
  function AsciiBytes(s: string): (bs: seq<Byte>)
    requires IsAscii(s)
    ensures |bs| == |s|
  {
    seq(|s|, i requires 0 <= i < |s| => s[i] as int)
  }

  /** The characters ReadString decodes from single-byte characters. */
  function Chars(bs: seq<Byte>): (s: string)
    ensures |s| == |bs|
  {
    seq(|bs|, i requires 0 <= i < |bs| => bs[i] as char)
  }

  /** BinaryWriter.Write(string) of an ASCII string. */
  function StringBytes(s: string): (bs: seq<Byte>)
    requires IsAscii(s) && |s| <= Int32Max
  {
    SevenBit(|s|) + AsciiBytes(s)
  }

  /**
   * BinaryReader.ReadString: a negative length throws, a zero length gives
   * the empty string, and a string cut short by the end of the stream
   * throws.
   */
  function ReadString(data: seq<Byte>, pos: nat): (r: Result<Read<string>>)
    ensures r.Ok? ==> pos < r.value.next <= |data| + 5
  {
    var len :- Read7BitInt(data, pos);
    if len.value < 0 then Err(NegativeStringLength(len.value))
    else if len.value == 0 then Ok(Read("", len.next))
    else if len.next + len.value > |data| then Err(EndOfStream)
    else Ok(Read(Chars(data[len.next..len.next + len.value]), len.next + len.value))
  }

  /** ReadString gives back the ASCII string Write(string) wrote. */
  lemma ReadStringAt(data: seq<Byte>, pos: nat, s: string)
    requires IsAscii(s) && |s| <= Int32Max && At(data, pos, StringBytes(s))
    ensures ReadString(data, pos) == Ok(Read(s, pos + |StringBytes(s)|))
  {
    AtSplit(data, pos, SevenBit(|s|), AsciiBytes(s));
    Read7BitAt(data, pos, 0, 0, |s|, |s|);
    var start := pos + |SevenBit(|s|)|;
    assert Chars(data[start..start + |s|]) == s;
  }
}
