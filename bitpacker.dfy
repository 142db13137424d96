/*
 * The bit packer shared by both codecs (Form1.cs `PackBits`, written once
 * per codec) and the unpacking expression both decoders inline
 * (`Convert.ToString(b, 2).PadLeft(8, '0')` joined over the payload).
 * A bit string is a C# string over the characters '0' and '1'.
 */
module BitPacker {
  import opened Common

  predicate IsBits(s: string) {
    forall i :: 0 <= i < |s| ==> s[i] == '0' || s[i] == '1'
  }

  function Zeros(n: nat): (s: string)
    ensures |s| == n && IsBits(s)
    ensures forall i :: 0 <= i < n ==> s[i] == '0'
  {
    if n == 0 then "" else Zeros(n - 1) + "0"
  }

  function Pow2(n: nat): (p: nat)
    ensures p >= 1
  {
    if n == 0 then 1 else 2 * Pow2(n - 1)
  }

  lemma ByteWidth()
    ensures Pow2(8) == 256
  {
  }

  /** `Convert.ToByte(s, 2)`: the value of a string of binary digits, most significant first. */
  function ParseBinary(s: string): (n: nat)
    requires IsBits(s)
    ensures n < Pow2(|s|)
  {
    if s == [] then 0
    else 2 * ParseBinary(s[..|s| - 1]) + (if s[|s| - 1] == '1' then 1 else 0)
  }

  /** `Convert.ToString(n, 2).PadLeft(width, '0')`: the low `width` binary digits of `n`. */
  function Binary(n: nat, width: nat): (s: string)
    ensures |s| == width && IsBits(s)
  {
    if width == 0 then "" else Binary(n / 2, width - 1) + (if n % 2 == 1 then "1" else "0")
  }

  lemma {:induction false} BinaryOfParse(s: string)
    requires IsBits(s)
    ensures Binary(ParseBinary(s), |s|) == s
  {
    if s != [] {
      var init := s[..|s| - 1];
      BinaryOfParse(init);
      var n := ParseBinary(s);
      assert n / 2 == ParseBinary(init);
      assert s == init + [s[|s| - 1]];
    }
  }

  lemma {:induction false} ParseOfBinary(n: nat, width: nat)
    requires n < Pow2(width)
    ensures ParseBinary(Binary(n, width)) == n
  {
    if width > 0 {
      ParseOfBinary(n / 2, width - 1);
      var s := Binary(n, width);
      assert s[..|s| - 1] == Binary(n / 2, width - 1);
    }
  }

  /** `s.PadRight(8, '0')` for a string of at most eight characters. */
  function PadRight8(s: string): (r: string)
    requires |s| <= 8
    ensures |r| == 8 && r[..|s|] == s
    ensures IsBits(s) ==> IsBits(r)
  {
    s + Zeros(8 - |s|)
  }

  /** The bytes PackBits produces: each group of eight bits, the last one right-padded with '0'. */
  function Pack(bits: string): (packed: seq<Byte>)
    requires IsBits(bits)
    ensures |packed| == (|bits| + 7) / 8
    decreases |bits|
  {
    if bits == [] then []
    else
      var n := if |bits| < 8 then |bits| else 8;
      var group := PadRight8(bits[..n]);
      [ParseBinary(group)] + Pack(bits[n..])
  }

  /** The group of (up to) eight bits at `i` becomes the next packed byte. */
  lemma PackStep(bits: string, i: nat, n: nat)
    requires IsBits(bits) && i < |bits| && n == (if 8 < |bits| - i then 8 else |bits| - i)
    ensures IsBits(bits[i..i + n]) && IsBits(bits[i + n..])
    ensures ParseBinary(PadRight8(bits[i..i + n])) < 256
    ensures Pack(bits[i..]) == [ParseBinary(PadRight8(bits[i..i + n]))] + Pack(bits[i + n..])
  {
    ByteWidth();
    var rest := bits[i..];
    assert rest[..n] == bits[i..i + n];
    assert rest[n..] == bits[i + n..];
  }

  /** PackBits: the loop over `i = 0, 8, 16, ...` that appends one byte per group. */
  method PackBits(bits: string) returns (packed: seq<Byte>)
    requires IsBits(bits)
    ensures packed == Pack(bits)
  {
    packed := [];
    var i := 0;
    ghost var done := 0;
    while i < |bits|
      invariant 0 <= done <= |bits|
      invariant if i < |bits| then done == i else done == |bits|
      invariant packed + Pack(bits[done..]) == Pack(bits)
      decreases |bits| - done
    {
      var n := if 8 < |bits| - i then 8 else |bits| - i;
      PackStep(bits, i, n);
      var byteStr := PadRight8(bits[i..i + n]);
      var b: Byte := ParseBinary(byteStr);
      AppendAssoc(packed, b, Pack(bits[i + n..]));
      packed := packed + [b];
      done := i + n;
      i := i + 8;
    }
    assert bits[done..] == [];
  }

  lemma AppendAssoc(a: seq<Byte>, x: Byte, b: seq<Byte>)
    ensures a + ([x] + b) == (a + [x]) + b
  {
  }

  /** The decoders' bit string: every byte as eight binary digits, most significant first. */
  function Unpack(bytes: seq<Byte>): (bits: string)
    ensures |bits| == 8 * |bytes| && IsBits(bits)
  {
    if bytes == [] then "" else Binary(bytes[0], 8) + Unpack(bytes[1..])
  }

  /** Unpacking the first packed byte gives back the first group of bits, padded. */
  lemma UnpackFirstGroup(bits: string)
    requires IsBits(bits) && bits != []
    ensures var n := if |bits| < 8 then |bits| else 8;
      Unpack(Pack(bits)) == PadRight8(bits[..n]) + Unpack(Pack(bits[n..]))
  {
    var n := if |bits| < 8 then |bits| else 8;
    BinaryOfParse(PadRight8(bits[..n]));
  }

  /** Unpacking what was packed gives back the bits followed by fewer than eight '0' padding bits. */
  lemma {:induction false} UnpackPack(bits: string)
    requires IsBits(bits)
    ensures var u := Unpack(Pack(bits));
      |bits| <= |u| < |bits| + 8 && u == bits + Zeros(|u| - |bits|)
  {
    if bits != [] {
      UnpackFirstGroup(bits);
      if |bits| < 8 {
        assert bits[|bits|..] == [] && bits[..|bits|] == bits;
        assert Unpack(Pack(bits[|bits|..])) == "";
        assert Unpack(Pack(bits)) == bits + Zeros(8 - |bits|);
      } else {
        var tail := bits[8..];
        UnpackPack(tail);
        var pad := |Unpack(Pack(tail))| - |tail|;
        assert PadRight8(bits[..8]) == bits[..8] + Zeros(0) == bits[..8];
        calc {
          Unpack(Pack(bits));
          bits[..8] + Unpack(Pack(tail));
          bits[..8] + (tail + Zeros(pad));
          { assert bits == bits[..8] + tail; }
          bits + Zeros(pad);
        }
      }
    }
  }

  /** Packing an unpacked payload gives back the payload: no byte value is lost. */
  lemma {:induction false} PackUnpack(bytes: seq<Byte>)
    ensures Pack(Unpack(bytes)) == bytes
  {
    if bytes != [] {
      var bits := Unpack(bytes);
      var head := Binary(bytes[0], 8);
      assert bits[..8] == head;
      assert bits[8..] == Unpack(bytes[1..]);
      assert PadRight8(head) == head;
      ParseOfBinary(bytes[0], 8);
      PackUnpack(bytes[1..]);
    }
  }
}
