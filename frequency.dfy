/*
 * Byte statistics and code tables shared by the two codecs:
 * `BuildFrequencyTable` (input.GroupBy(b => b).ToDictionary(g.Key, g.Count())),
 * the same grouping inside ShannonFano.BuildTable, and the concatenation of
 * per-byte codes both compressors perform (`EncodeData`, and the inline
 * string.Join in ShannonFano.Compress).
 */
module Frequency {
  import opened Common
  import opened BitPacker

  /** The number of times `b` occurs in `input`. */
  function Occurrences(input: seq<Byte>, b: Byte): nat {
    multiset(input)[b]
  }

  /** One more occurrence of `b`: the group of `b` grows, or a new group opens at the end. */
  function Bump(d: seq<(Byte, int)>, b: Byte): (r: seq<(Byte, int)>)
    requires NoDuplicates(Keys(d))
    ensures Keys(r) == if b in Keys(d) then Keys(d) else Keys(d) + [b]
    ensures forall i :: 0 <= i < |d| ==> r[i].1 == d[i].1 + (if d[i].0 == b then 1 else 0)
    ensures b !in Keys(d) ==> r[|d|] == (b, 1)
    ensures SumValues(r) == SumValues(d) + 1
  {
    if d == [] then [(b, 1)]
    else
      assert Keys(d) == [d[0].0] + Keys(d[1..]);
      assert d[0].0 !in Keys(d[1..]);
      if d[0].0 == b then
        var r := [(b, d[0].1 + 1)] + d[1..];
        assert Keys(r) == [b] + Keys(d[1..]);
        r
      else
        var rest := Bump(d[1..], b);
        var r := [d[0]] + rest;
        assert Keys(r) == [d[0].0] + Keys(rest);
        assert r[1..] == rest;
        r
  }

  /**
   * BuildFrequencyTable: one (byte, count) pair per distinct input byte, in
   * order of first occurrence (the order GroupBy yields its groups in).
   */
  function FrequencyTable(input: seq<Byte>): (freq: seq<(Byte, int)>)
    ensures NoDuplicates(Keys(freq))
    ensures forall b :: b in Keys(freq) <==> b in input
    ensures forall i :: 0 <= i < |freq| ==> freq[i].1 == Occurrences(input, freq[i].0) > 0
    ensures SumValues(freq) == |input|
    decreases |input|
  {
    if input == [] then []
    else
      var init := input[..|input| - 1];
      var b := input[|input| - 1];
      assert input == init + [b];
      var prev := FrequencyTable(init);
      NoDuplicatesSnoc(Keys(prev), b);
      var freq := Bump(prev, b);
      BumpCounts(input, init, b, prev, freq);
      assert forall x :: x in input <==> x in init || x == b;
      freq
  }

  /** Counting one more byte `b` keeps every count equal to the byte's occurrences. */
  lemma BumpCounts(input: seq<Byte>, init: seq<Byte>, b: Byte, prev: seq<(Byte, int)>, r: seq<(Byte, int)>)
    requires input == init + [b] && NoDuplicates(Keys(prev)) && r == Bump(prev, b)
    requires forall x :: x in Keys(prev) <==> x in init
    requires forall i :: 0 <= i < |prev| ==> prev[i].1 == Occurrences(init, prev[i].0) > 0
    ensures forall i :: 0 <= i < |r| ==> r[i].1 == Occurrences(input, r[i].0) > 0
  {
    assert multiset(input) == multiset(init) + multiset{b};
    forall i | 0 <= i < |r| ensures r[i].1 == Occurrences(input, r[i].0) > 0 {
      var x := r[i].0;
      assert Keys(r)[i] == x;
      var n := Occurrences(input, x);
      assert n == Occurrences(init, x) + (if x == b then 1 else 0);
      if i < |prev| {
        assert Keys(prev)[i] == x == prev[i].0;
        assert r[i].1 == prev[i].1 + (if x == b then 1 else 0);
        assert prev[i].1 == Occurrences(init, x) > 0;
      } else {
        assert i == |prev| && b !in Keys(prev);
        assert r[i] == (b, 1) && b !in init;
      }
    }
  }

  /** Every byte of `input` has a code in `table`. */
  predicate Covers(table: map<Byte, string>, input: seq<Byte>) {
    forall i :: 0 <= i < |input| ==> input[i] in table
  }

  /** `u` is a prefix of `v`. */
  predicate IsPrefix(u: string, v: string) {
    |u| <= |v| && v[..|u|] == u
  }

  /** No code of the table is a prefix of another byte's code. */
  predicate PrefixFree(table: map<Byte, string>) {
    forall a, b :: a in table && b in table && a != b ==> !IsPrefix(table[a], table[b])
  }

  /** EncodeData: the codes of the input bytes, concatenated in input order. */
  function Encode(input: seq<Byte>, table: map<Byte, string>): (bits: string)
    requires Covers(table, input)
    ensures (forall b :: b in table ==> IsBits(table[b])) ==> IsBits(bits)
    ensures input != [] ==> IsPrefix(table[input[0]], bits)
  {
    if input == [] then "" else table[input[0]] + Encode(input[1..], table)
  }

  lemma {:induction false} EncodeAppend(a: seq<Byte>, b: seq<Byte>, table: map<Byte, string>)
    requires Covers(table, a) && Covers(table, b)
    ensures Covers(table, a + b)
    ensures Encode(a + b, table) == Encode(a, table) + Encode(b, table)
  {
    if a != [] {
      assert (a + b)[1..] == a[1..] + b;
      EncodeAppend(a[1..], b, table);
    } else {
      assert a + b == b;
    }
  }
}
