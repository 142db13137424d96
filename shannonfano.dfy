/*
 * The Shannon-Fano codec of Form1.cs (static class ShannonFano): BuildTable,
 * GenerateCodes, Compress and Decompress. A Symbol (Value, Frequency, Code)
 * is kept as a (byte, frequency) pair in a list plus its code in an array
 * that GenerateCodes updates in place.
 */
module ShannonFano {
  import opened Common
  import opened BitPacker
  import opened Frequency

  /** Non-increasing frequencies. */
  predicate Descending(f: seq<int>) {
    forall i, j :: 0 <= i < j < |f| ==> f[i] >= f[j]
  }

  /** Pairs in non-increasing order of frequency. */
  predicate ByDescendingFrequency(q: seq<(Byte, int)>) {
    forall i, j :: 0 <= i < j < |q| ==> q[i].1 >= q[j].1
  }

  /*
   * `OrderByDescending(s => s.Frequency)`: a stable sort, so pairs of equal
   * frequency keep the order GroupBy produced them in.
   */

  /** Inserts `x`, which came after every pair of `q`, behind all pairs of at least its frequency. */
  function InsertDescending(q: seq<(Byte, int)>, x: (Byte, int)): (r: seq<(Byte, int)>)
    ensures |r| == |q| + 1
    decreases |q|
  {
    if q == [] || q[|q| - 1].1 >= x.1 then q + [x]
    else InsertDescending(q[..|q| - 1], x) + [q[|q| - 1]]
  }

  function SortByFrequency(g: seq<(Byte, int)>): (r: seq<(Byte, int)>)
    ensures |r| == |g|
  {
    if g == [] then [] else InsertDescending(SortByFrequency(g[..|g| - 1]), g[|g| - 1])
  }

  lemma {:induction false} InsertDescendingPermutes(q: seq<(Byte, int)>, x: (Byte, int))
    ensures multiset(InsertDescending(q, x)) == multiset(q) + multiset{x}
    decreases |q|
  {
    if q != [] && q[|q| - 1].1 < x.1 {
      var init, last := q[..|q| - 1], q[|q| - 1];
      InsertDescendingPermutes(init, x);
      assert q == init + [last];
    }
  }

  lemma {:induction false} InsertDescendingOrder(q: seq<(Byte, int)>, x: (Byte, int))
    requires ByDescendingFrequency(q)
    ensures ByDescendingFrequency(InsertDescending(q, x))
    decreases |q|
  {
    if q != [] && q[|q| - 1].1 < x.1 {
      var init, last := q[..|q| - 1], q[|q| - 1];
      InsertDescendingOrder(init, x);
      InsertDescendingPermutes(init, x);
      var r := InsertDescending(init, x);
      forall i | 0 <= i < |r| ensures r[i].1 >= last.1 {
        assert r[i] in multiset(init) + multiset{x};
      }
    }
  }

  /** The sort orders by descending frequency and permutes the pairs. */
  lemma {:induction false} SortByFrequencyOrder(g: seq<(Byte, int)>)
    ensures ByDescendingFrequency(SortByFrequency(g))
  {
    if g != [] {
      var init, last := g[..|g| - 1], g[|g| - 1];
      SortByFrequencyOrder(init);
      InsertDescendingOrder(SortByFrequency(init), last);
    }
  }

  lemma {:induction false} SortByFrequencyPermutes(g: seq<(Byte, int)>)
    ensures multiset(SortByFrequency(g)) == multiset(g)
  {
    if g != [] {
      var init, last := g[..|g| - 1], g[|g| - 1];
      SortByFrequencyPermutes(init);
      InsertDescendingPermutes(SortByFrequency(init), last);
      assert g == init + [last];
    }
  }

  /*
   * GenerateCodes.
   */

  /** `total / 2` in C#: integer division truncates toward zero. */
  function Half(total: int): (h: int)
    ensures 2 * h <= total + 1 && total <= 2 * h + 1
  {
    if total >= 0 then total / 2 else -((-total) / 2)
  }

  /** The sum of a segment's frequencies. */
  function Sum(f: seq<int>): int {
    if f == [] then 0 else Sum(f[..|f| - 1]) + f[|f| - 1]
  }

  /** The sum of the first `n` frequencies of a segment. */
  function PrefixSum(f: seq<int>, n: nat): int
    requires n <= |f|
  {
    Sum(f[..n])
  }

  /**
   * The split loop from index `i`, with `sum` the frequencies before it: the
   * first index at which the running sum reaches `half`; if none does, the
   * split stays at the segment's start.
   */
  function FirstAtLeast(f: seq<int>, i: nat, sum: int, half: int): (k: nat)
    ensures k < |f| || k == 0
    decreases |f| - i
  {
    if i >= |f| then 0
    else if sum + f[i] >= half then i
    else FirstAtLeast(f, i + 1, sum + f[i], half)
  }

  lemma {:induction false} FirstAtLeastFacts(f: seq<int>, i: nat, sum: int, half: int)
    requires i <= |f| && sum == PrefixSum(f, i)
    ensures var k := FirstAtLeast(f, i, sum, half);
      k == 0 || (i <= k < |f| && forall j :: i < j <= k ==> PrefixSum(f, j) < half)
    decreases |f| - i
  {
    if i < |f| {
      assert f[..i + 1][..i] == f[..i];
      assert PrefixSum(f, i + 1) == sum + f[i];
      if sum + f[i] < half {
        FirstAtLeastFacts(f, i + 1, sum + f[i], half);
      }
    }
  }

  /**
   * The index (relative to the segment) after which the segment is split:
   * the first index at which the running sum reaches half the total. On a
   * descending segment that index is never the last one (SplitInRange); on
   * any other segment GenerateCodes would split off nothing and recurse
   * without end, and the model moves such a split back to the index before
   * the last, so that every segment has a split.
   */
  function SplitPoint(f: seq<int>): (k: nat)
    requires |f| >= 2
    ensures k < |f| - 1
  {
    var first := FirstAtLeast(f, 0, 0, Half(Sum(f)));
    if first < |f| - 1 then first else |f| - 2
  }

  /**
   * On a descending segment of two or more frequencies the split falls
   * before the last index, so both halves are non-empty.
   */
  lemma SplitInRange(f: seq<int>)
    requires |f| >= 2 && Descending(f)
    ensures FirstAtLeast(f, 0, 0, Half(Sum(f))) < |f| - 1
  {
    var n := |f|;
    var h := Half(Sum(f));
    assert f[..0] == [];
    FirstAtLeastFacts(f, 0, 0, h);
    assert f[..1][..0] == [];
    assert PrefixSum(f, 1) == f[0];
    assert f[..n] == f && f[..n][..n - 1] == f[..n - 1];
    assert Sum(f) == PrefixSum(f, n - 1) + f[n - 1];
    assert f[0] >= f[n - 1];
  }

  /** Each code of `codes` with `bit` in front of it. */
  function Prefixed(bit: string, codes: seq<string>): (r: seq<string>)
    ensures |r| == |codes| && forall i :: 0 <= i < |r| ==> r[i] == bit + codes[i]
  {
    if codes == [] then [] else [bit + codes[0]] + Prefixed(bit, codes[1..])
  }

  /**
   * What GenerateCodes appends to the codes of a descending segment: '0'
   * to the symbols up to the split and '1' after it, then recursively
   * within each half. A segment of one symbol gets nothing appended.
   */
  function Suffixes(f: seq<int>): (codes: seq<string>)
    ensures |codes| == |f|
    decreases |f|
  {
    if |f| == 0 then []
    else if |f| == 1 then [""]
    else
      var k := SplitPoint(f);
      Prefixed("0", Suffixes(f[..k + 1])) + Prefixed("1", Suffixes(f[k + 1..]))
  }

  /** The suffixes of a segment of two or more symbols are those of its halves behind '0' and '1'. */
  lemma SuffixesSplit(f: seq<int>, k: nat, left: seq<int>, right: seq<int>)
    requires |f| >= 2 && k == SplitPoint(f) && left == f[..k + 1] && right == f[k + 1..]
    ensures Suffixes(f) == Prefixed("0", Suffixes(left)) + Prefixed("1", Suffixes(right))
  {
    var whole := Suffixes(f);
    assert whole == Prefixed("0", Suffixes(f[..k + 1])) + Prefixed("1", Suffixes(f[k + 1..]));
  }

  /** A slice of a descending sequence is descending. */
  lemma DescendingSlice(f: seq<int>, lo: nat, hi: nat)
    requires Descending(f) && lo <= hi <= |f|
    ensures Descending(f[lo..hi])
  {
    forall i, j | 0 <= i < j < hi - lo
      ensures f[lo..hi][i] >= f[lo..hi][j]
    {
      assert f[lo..hi][i] == f[lo + i] && f[lo..hi][j] == f[lo + j];
    }
  }

  /** SuffixesSplit for the segment `start..end` of `s`, stated on slices of `s`. */
  lemma SegmentSuffixes(s: seq<int>, start: int, split: int, end: int)
    requires 0 <= start <= split < end < |s|
    requires split == start + SplitPoint(s[start..end + 1])
    ensures Suffixes(s[start..end + 1]) ==
      Prefixed("0", Suffixes(s[start..split + 1])) + Prefixed("1", Suffixes(s[split + 1..end + 1]))
  {
    var whole, left, right := s[start..end + 1], s[start..split + 1], s[split + 1..end + 1];
    assert whole[..split - start + 1] == left;
    assert whole[split - start + 1..] == right;
    SuffixesSplit(whole, split - start, left, right);
  }

  /** `codes` with `suffixes[t - start]` appended to each code from index `start` on. */
  function AppendAt(codes: seq<string>, start: int, suffixes: seq<string>): (r: seq<string>)
    ensures |r| == |codes|
    decreases |codes|
  {
    if codes == [] then []
    else
      var t := |codes| - 1;
      AppendAt(codes[..t], start, suffixes) +
        [codes[t] + (if start <= t < start + |suffixes| then suffixes[t - start] else "")]
  }

  /** Index `t` of AppendAt inside the range, with `i` the index into the suffixes. */
  lemma {:induction false} AppendAtInside(codes: seq<string>, start: int, suffixes: seq<string>, t: int, i: int)
    requires 0 <= t < |codes| && 0 <= i < |suffixes| && t == start + i
    ensures AppendAt(codes, start, suffixes)[t] == codes[t] + suffixes[i]
    decreases |codes|
  {
    if t < |codes| - 1 {
      var init := codes[..|codes| - 1];
      AppendAtInside(init, start, suffixes, t, i);
      assert init[t] == codes[t];
    }
  }

  /** Index `t` of AppendAt outside the range. */
  lemma {:induction false} AppendAtOutside(codes: seq<string>, start: int, suffixes: seq<string>, t: int)
    requires 0 <= t < |codes| && !(start <= t < start + |suffixes|)
    ensures AppendAt(codes, start, suffixes)[t] == codes[t]
    decreases |codes|
  {
    if t < |codes| - 1 {
      var init := codes[..|codes| - 1];
      AppendAtOutside(init, start, suffixes, t);
      assert init[t] == codes[t];
    } else {
      assert codes[t] + "" == codes[t];
    }
  }

  /** Index `j` of a concatenation that falls in its second part, at index `i` of that part. */
  lemma IndexSecond<T>(a: seq<T>, b: seq<T>, j: int, i: int)
    requires 0 <= i < |b| && j == |a| + i
    ensures (a + b)[j] == b[i]
  {
  }

  /** Index `j` of a concatenation that falls in its first part. */
  lemma IndexFirst<T>(a: seq<T>, b: seq<T>, j: int)
    requires 0 <= j < |a|
    ensures (a + b)[j] == a[j]
  {
  }

  /** What the two marking loops append: `zeros` times "0", then `ones` times "1". */
  function Marks(zeros: nat, ones: nat): (m: seq<string>)
    ensures |m| == zeros + ones
    ensures forall i :: 0 <= i < |m| ==> m[i] == if i < zeros then "0" else "1"
  {
    seq(zeros, _ => "0") + seq(ones, _ => "1")
  }

  /** A bit appended to a code, then a suffix: the code with the bit-led suffix appended. */
  lemma AppendBitThenSuffix(before: string, bit: string, suffix: string, marked: string, after: string)
    requires marked == before + bit && after == marked + suffix
    ensures after == before + (bit + suffix)
  {
  }

  /** Code `t` of a segment after the marking loops: "0" appended in the first half, "1" in the second. */
  lemma MarkedAt(before: seq<string>, start: int, zeros: nat, ones: nat, t: int)
    requires 0 <= t < |before| && start <= t < start + zeros + ones
    ensures AppendAt(before, start, Marks(zeros, ones))[t] == before[t] + (if t < start + zeros then "0" else "1")
  {
    var marks := Marks(zeros, ones);
    assert marks[t - start] == if t < start + zeros then "0" else "1";
    AppendAtInside(before, start, marks, t, t - start);
  }

  /** Code `t` of the first half after marking and coding both halves: its "0", then its suffix. */
  lemma FirstHalfCoded(start: int, split: int, end: int, left: seq<string>, right: seq<string>,
                       before: seq<string>, t: int)
    requires start <= t <= split < end && |left| == split - start + 1 && |right| == end - split
    requires 0 <= t < |before|
    ensures var marked := AppendAt(before, start, Marks(split - start + 1, end - split));
      AppendAt(AppendAt(marked, start, left), split + 1, right)[t] == before[t] + ("0" + left[t - start])
  {
    var marks := Marks(split - start + 1, end - split);
    var marked := AppendAt(before, start, marks);
    var mid := AppendAt(marked, start, left);
    var i := t - start;
    MarkedAt(before, start, split - start + 1, end - split, t);
    assert mid[t] == marked[t] + left[i] by {
      AppendAtInside(marked, start, left, t, i);
    }
    assert AppendAt(mid, split + 1, right)[t] == mid[t] by {
      AppendAtOutside(mid, split + 1, right, t);
    }
    AppendBitThenSuffix(before[t], "0", left[i], marked[t], mid[t]);
  }

  /** Code `t` of the second half after marking and coding both halves: its "1", then its suffix. */
  lemma SecondHalfCoded(start: int, split: int, end: int, left: seq<string>, right: seq<string>,
                        before: seq<string>, t: int)
    requires start <= split < t <= end && |left| == split - start + 1 && |right| == end - split
    requires 0 <= t < |before|
    ensures var marked := AppendAt(before, start, Marks(split - start + 1, end - split));
      AppendAt(AppendAt(marked, start, left), split + 1, right)[t] == before[t] + ("1" + right[t - split - 1])
  {
    var marks := Marks(split - start + 1, end - split);
    var marked := AppendAt(before, start, marks);
    var mid := AppendAt(marked, start, left);
    var after := AppendAt(mid, split + 1, right);
    var i := t - split - 1;
    MarkedAt(before, start, split - start + 1, end - split, t);
    assert mid[t] == marked[t] by {
      AppendAtOutside(marked, start, left, t);
    }
    assert after[t] == mid[t] + right[i] by {
      AppendAtInside(mid, split + 1, right, t, i);
    }
    AppendBitThenSuffix(before[t], "1", right[i], marked[t], after[t]);
  }

  /** Code `t` of the segment with the codes of both halves, behind their lead bits, appended. */
  lemma HalvesAppended(start: int, split: int, end: int, left: seq<string>, right: seq<string>,
                       before: seq<string>, t: int)
    requires start <= t <= end && |left| == split - start + 1 && |right| == end - split
    requires 0 <= t < |before|
    ensures var expected := AppendAt(before, start, Prefixed("0", left) + Prefixed("1", right));
      expected[t] == if t <= split then before[t] + ("0" + left[t - start])
                     else before[t] + ("1" + right[t - split - 1])
  {
    var zeros, ones := Prefixed("0", left), Prefixed("1", right);
    var i := t - start;
    AppendAtInside(before, start, zeros + ones, t, i);
    if t <= split {
      IndexFirst(zeros, ones, i);
    } else {
      IndexSecond(zeros, ones, i, t - split - 1);
    }
  }

  /** One code of the first half after marking and appending the first half's suffixes. */
  lemma CombineFirst(start: int, split: int, end: int, left: seq<string>, right: seq<string>,
                     before: seq<string>, t: int)
    requires start <= t <= split < end && |left| == split - start + 1 && |right| == end - split
    requires 0 <= t < |before|
    ensures var marked := AppendAt(before, start, Marks(split - start + 1, end - split));
      AppendAt(AppendAt(marked, start, left), split + 1, right)[t] ==
      AppendAt(before, start, Prefixed("0", left) + Prefixed("1", right))[t]
  {
    FirstHalfCoded(start, split, end, left, right, before, t);
    HalvesAppended(start, split, end, left, right, before, t);
  }

  /** One code of the second half after marking and appending the second half's suffixes. */
  lemma CombineSecond(start: int, split: int, end: int, left: seq<string>, right: seq<string>,
                      before: seq<string>, t: int)
    requires start <= split < t <= end && |left| == split - start + 1 && |right| == end - split
    requires 0 <= t < |before|
    ensures var marked := AppendAt(before, start, Marks(split - start + 1, end - split));
      AppendAt(AppendAt(marked, start, left), split + 1, right)[t] ==
      AppendAt(before, start, Prefixed("0", left) + Prefixed("1", right))[t]
  {
    SecondHalfCoded(start, split, end, left, right, before, t);
    HalvesAppended(start, split, end, left, right, before, t);
  }

  /** A code outside the segment is left as it was. */
  lemma CombineOutside(start: int, split: int, end: int, left: seq<string>, right: seq<string>,
                       before: seq<string>, t: int)
    requires start <= split < end && |left| == split - start + 1 && |right| == end - split
    requires 0 <= t < |before| && !(start <= t <= end)
    ensures var marked := AppendAt(before, start, Marks(split - start + 1, end - split));
      AppendAt(AppendAt(marked, start, left), split + 1, right)[t] ==
      AppendAt(before, start, Prefixed("0", left) + Prefixed("1", right))[t]
  {
    var marks := Marks(split - start + 1, end - split);
    var marked := AppendAt(before, start, marks);
    var mid := AppendAt(marked, start, left);
    assert marked[t] == before[t] by {
      AppendAtOutside(before, start, marks, t);
    }
    assert mid[t] == marked[t] by {
      AppendAtOutside(marked, start, left, t);
    }
    assert AppendAt(mid, split + 1, right)[t] == mid[t] by {
      AppendAtOutside(mid, split + 1, right, t);
    }
    assert AppendAt(before, start, Prefixed("0", left) + Prefixed("1", right))[t] == before[t] by {
      AppendAtOutside(before, start, Prefixed("0", left) + Prefixed("1", right), t);
    }
  }

  /**
   * Marking `start..end` with '0' up to `split` and '1' after it, then
   * appending `left` to the first half and `right` to the second, appends
   * the bit-led suffixes of both halves.
   */
  lemma CombineHalves(start: int, split: int, end: int, left: seq<string>, right: seq<string>, before: seq<string>)
    requires start <= split < end && |left| == split - start + 1 && |right| == end - split
    ensures var marked := AppendAt(before, start, Marks(split - start + 1, end - split));
      AppendAt(AppendAt(marked, start, left), split + 1, right) ==
      AppendAt(before, start, Prefixed("0", left) + Prefixed("1", right))
  {
    var after := AppendAt(AppendAt(AppendAt(before, start, Marks(split - start + 1, end - split)), start, left),
                          split + 1, right);
    var expected := AppendAt(before, start, Prefixed("0", left) + Prefixed("1", right));
    forall t | 0 <= t < |before|
      ensures after[t] == expected[t]
    {
      if start <= t <= split {
        CombineFirst(start, split, end, left, right, before, t);
      } else if split < t <= end {
        CombineSecond(start, split, end, left, right, before, t);
      } else {
        CombineOutside(start, split, end, left, right, before, t);
      }
    }
  }

  /** A segment of one symbol gets nothing appended. */
  lemma AppendedNothing(codes: seq<string>, start: int, suffixes: seq<string>)
    requires suffixes == [""]
    ensures AppendAt(codes, start, suffixes) == codes
  {
    var r := AppendAt(codes, start, suffixes);
    forall t | 0 <= t < |codes|
      ensures r[t] == codes[t]
    {
      if t == start {
        AppendAtInside(codes, start, suffixes, t, 0);
        assert codes[t] + "" == codes[t];
      } else {
        AppendAtOutside(codes, start, suffixes, t);
      }
    }
  }

  /** The split of the segment `start..end` of a list, as an index into the list. */
  function SegmentSplit(freqs: seq<int>, start: int, end: int): (split: int)
    requires 0 <= start < end < |freqs|
    ensures start <= split < end
  {
    start + SplitPoint(freqs[start..end + 1])
  }

  /** The suffixes GenerateCodes appends to the segment `start..end` of a list. */
  function SegmentCodes(freqs: seq<int>, start: int, end: int): (codes: seq<string>)
    requires 0 <= start <= end < |freqs|
    ensures |codes| == end - start + 1
    ensures start == end ==> codes == [""]
  {
    Suffixes(freqs[start..end + 1])
  }

  /** The suffixes of the segment `start..end`, as the suffixes of that slice. */
  lemma SegmentCodesSlice(freqs: seq<int>, start: int, end: int)
    requires 0 <= start <= end < |freqs|
    ensures SegmentCodes(freqs, start, end) == Suffixes(freqs[start..end + 1])
  {
  }

  /** The segment's suffixes are those of its two halves behind '0' and '1'. */
  lemma SegmentCodesSplit(freqs: seq<int>, start: int, end: int, split: int)
    requires 0 <= start < end < |freqs| && split == SegmentSplit(freqs, start, end)
    ensures SegmentCodes(freqs, start, end) ==
      Prefixed("0", SegmentCodes(freqs, start, split)) + Prefixed("1", SegmentCodes(freqs, split + 1, end))
  {
    var next := split + 1;
    SegmentCodesSlice(freqs, start, end);
    SegmentCodesSlice(freqs, start, split);
    SegmentCodesSlice(freqs, next, end);
    SegmentSuffixes(freqs, start, split, end);
  }

  /**
   * The split loop of GenerateCodes: the first index of the segment
   * `start..end` at which the running sum reaches half the segment's total
   * (C# integer division), or `start` if none does.
   */
  method FindSplit(freqs: seq<int>, start: int, end: int) returns (split: int)
    requires Descending(freqs) && 0 <= start < end < |freqs|
    ensures split == SegmentSplit(freqs, start, end)
  {
    DescendingSlice(freqs, start, end + 1);
    ghost var segment := freqs[start..end + 1];
    var total := Sum(freqs[start..end + 1]);
    var sum := 0;
    split := start;
    var i := start;
    while i <= end
      invariant start <= i <= end + 1
      invariant FirstAtLeast(segment, i - start, sum, Half(total)) == FirstAtLeast(segment, 0, 0, Half(total))
      invariant split == start
    {
      sum := sum + freqs[i];
      if sum >= Half(total) {
        split := i;
        break;
      }
      i := i + 1;
    }
    SplitInRange(segment);
  }

  /** The two marking loops of GenerateCodes: "0" up to `split`, "1" after it up to `end`. */
  method MarkHalves(codes: array<string>, start: int, split: int, end: int)
    requires 0 <= start <= split < end < codes.Length
    modifies codes
    ensures codes[..] == AppendAt(old(codes[..]), start, Marks(split - start + 1, end - split))
  {
    ghost var before := codes[..];
    for j := start to split + 1
      invariant forall t :: 0 <= t < codes.Length ==> codes[t] == before[t] + (if start <= t < j then "0" else "")
    {
      codes[j] := codes[j] + "0";
    }
    for j := split + 1 to end + 1
      invariant forall t :: 0 <= t < codes.Length ==>
        codes[t] == before[t] + (if start <= t <= split then "0" else if split < t < j then "1" else "")
    {
      codes[j] := codes[j] + "1";
    }
    ghost var marks := Marks(split - start + 1, end - split);
    forall t | 0 <= t < codes.Length
      ensures codes[t] == AppendAt(before, start, marks)[t]
    {
      if start <= t <= end {
        AppendAtInside(before, start, marks, t, t - start);
      } else {
        AppendAtOutside(before, start, marks, t);
        assert before[t] + "" == before[t];
      }
    }
  }

  /** One step of GenerateCodes: marking the halves, then coding each, codes the whole segment. */
  lemma GenerateStep(freqs: seq<int>, start: int, split: int, next: int, end: int,
                     before: seq<string>, marked: seq<string>, mid: seq<string>, after: seq<string>)
    requires 0 <= start < end < |freqs| && split == SegmentSplit(freqs, start, end)
    requires next == split + 1
    requires marked == AppendAt(before, start, Marks(split - start + 1, end - split))
    requires mid == AppendAt(marked, start, SegmentCodes(freqs, start, split))
    requires after == AppendAt(mid, next, SegmentCodes(freqs, next, end))
    ensures after == AppendAt(before, start, SegmentCodes(freqs, start, end))
  {
    SegmentCodesSplit(freqs, start, end, split);
    CombineHalves(start, split, end, SegmentCodes(freqs, start, split), SegmentCodes(freqs, split + 1, end), before);
  }

  /**
   * GenerateCodes(symbols, start, end): appends to `codes[start..end]` the
   * suffixes of that segment; the other codes are untouched. The segment
   * must be in descending order, as BuildTable leaves it (on any other
   * order the split can fall on `end` and the recursion does not end).
   */
  method GenerateCodes(freqs: seq<int>, codes: array<string>, start: int, end: int)
    requires codes.Length == |freqs| && Descending(freqs)
    requires start <= end ==> 0 <= start && end < |freqs|
    modifies codes
    ensures start >= end ==> codes[..] == old(codes[..])
    ensures start <= end ==> codes[..] == AppendAt(old(codes[..]), start, SegmentCodes(freqs, start, end))
    decreases end - start
  {
    if start >= end {
      if start == end {
        AppendedNothing(codes[..], start, SegmentCodes(freqs, start, end));
      }
      return;
    }
    ghost var before := codes[..];
    var split := FindSplit(freqs, start, end);
    MarkHalves(codes, start, split, end);
    ghost var marked := codes[..];
    GenerateCodes(freqs, codes, start, split);
    ghost var mid := codes[..];
    var next := split + 1;
    GenerateCodes(freqs, codes, next, end);
    GenerateStep(freqs, start, split, next, end, before, marked, mid, codes[..]);
  }

  /*
   * Properties of the generated codes.
   */

  /** No code of the list is a prefix of a code at another index. */
  predicate PrefixFreeCodes(codes: seq<string>) {
    forall i, j :: 0 <= i < |codes| && 0 <= j < |codes| && i != j ==> !IsPrefix(codes[i], codes[j])
  }

  /** Every code of the list is a non-empty bit string. */
  predicate BitCodes(codes: seq<string>) {
    forall i :: 0 <= i < |codes| ==> IsBits(codes[i]) && codes[i] != ""
  }

  /** A one-character lead shared by two codes does not change whether one is a prefix of the other. */
  lemma PrefixCancel(bit: string, u: string, v: string)
    requires |bit| == 1 && IsPrefix(bit + u, bit + v)
    ensures IsPrefix(u, v)
  {
    assert v[..|u|] == (bit + v)[1..|u| + 1] == (bit + u)[1..];
    assert (bit + u)[1..] == u;
  }

  /** Two codes that start with different bits are not prefixes of each other. */
  lemma DifferentLead(u: string, v: string)
    requires u != "" && v != "" && u[0] != v[0]
    ensures !IsPrefix(u, v)
  {
    if |u| <= |v| {
      assert v[..|u|][0] == v[0];
    }
  }

  /** Code `i` of the two halves behind their lead bits. */
  lemma HalvesAt(left: seq<string>, right: seq<string>, i: int)
    requires 0 <= i < |left| + |right|
    ensures var codes := Prefixed("0", left) + Prefixed("1", right);
      codes[i] == if i < |left| then "0" + left[i] else "1" + right[i - |left|]
  {
    var zeros, ones := Prefixed("0", left), Prefixed("1", right);
    if i < |left| {
      assert (zeros + ones)[i] == zeros[i] by {
        IndexFirst(zeros, ones, i);
      }
      assert zeros[i] == "0" + left[i];
    } else {
      assert (zeros + ones)[i] == ones[i - |left|] by {
        IndexSecond(zeros, ones, i, i - |left|);
      }
      assert ones[i - |left|] == "1" + right[i - |left|];
    }
  }

  /** Two codes of the halves at different indices are not prefixes of each other. */
  lemma HalvesPairPrefixFree(left: seq<string>, right: seq<string>, i: int, j: int)
    requires PrefixFreeCodes(left) && PrefixFreeCodes(right)
    requires 0 <= i < |left| + |right| && 0 <= j < |left| + |right| && i != j
    ensures var codes := Prefixed("0", left) + Prefixed("1", right);
      !IsPrefix(codes[i], codes[j])
  {
    var codes := Prefixed("0", left) + Prefixed("1", right);
    HalvesAt(left, right, i);
    HalvesAt(left, right, j);
    if i < |left| && j < |left| {
      if IsPrefix(codes[i], codes[j]) {
        PrefixCancel("0", left[i], left[j]);
      }
    } else if i >= |left| && j >= |left| {
      if IsPrefix(codes[i], codes[j]) {
        PrefixCancel("1", right[i - |left|], right[j - |left|]);
      }
    } else {
      DifferentLead(codes[i], codes[j]);
    }
  }

  /** Codes led by '0' and codes led by '1' form a prefix-free list of non-empty bit strings. */
  lemma PrefixedHalves(left: seq<string>, right: seq<string>)
    requires PrefixFreeCodes(left) && PrefixFreeCodes(right)
    requires forall i :: 0 <= i < |left| ==> IsBits(left[i])
    requires forall i :: 0 <= i < |right| ==> IsBits(right[i])
    ensures var codes := Prefixed("0", left) + Prefixed("1", right);
      PrefixFreeCodes(codes) && BitCodes(codes)
  {
    PrefixedHalvesBits(left, right);
    PrefixedHalvesFree(left, right);
  }

  /** Leading each bit string with '0' or '1' gives non-empty bit strings. */
  lemma PrefixedHalvesBits(left: seq<string>, right: seq<string>)
    requires forall i :: 0 <= i < |left| ==> IsBits(left[i])
    requires forall i :: 0 <= i < |right| ==> IsBits(right[i])
    ensures BitCodes(Prefixed("0", left) + Prefixed("1", right))
  {
    var codes := Prefixed("0", left) + Prefixed("1", right);
    forall i | 0 <= i < |codes|
      ensures IsBits(codes[i]) && codes[i] != ""
    {
      HalvesAt(left, right, i);
    }
  }

  /** Two prefix-free lists, one led by '0' and one by '1', make one prefix-free list. */
  lemma PrefixedHalvesFree(left: seq<string>, right: seq<string>)
    requires PrefixFreeCodes(left) && PrefixFreeCodes(right)
    ensures PrefixFreeCodes(Prefixed("0", left) + Prefixed("1", right))
  {
    var codes := Prefixed("0", left) + Prefixed("1", right);
    forall i, j | 0 <= i < |codes| && 0 <= j < |codes| && i != j
      ensures !IsPrefix(codes[i], codes[j])
    {
      HalvesPairPrefixFree(left, right, i, j);
    }
  }

  /**
   * The suffixes of a descending segment are prefix-free bit strings, and
   * when the segment has two or more symbols none of them is empty.
   */
  lemma {:induction false} SuffixesPrefixFree(f: seq<int>)
    ensures PrefixFreeCodes(Suffixes(f))
    ensures forall i :: 0 <= i < |f| ==> IsBits(Suffixes(f)[i])
    ensures |f| >= 2 ==> BitCodes(Suffixes(f))
    decreases |f|
  {
    if |f| == 1 {
      assert IsBits(Suffixes(f)[0]);
    } else if |f| >= 2 {
      var k := SplitPoint(f);
      SuffixesSplit(f, k, f[..k + 1], f[k + 1..]);
      SuffixesPrefixFree(f[..k + 1]);
      SuffixesPrefixFree(f[k + 1..]);
      PrefixedHalves(Suffixes(f[..k + 1]), Suffixes(f[k + 1..]));
    }
  }

  /*
   * BuildTable.
   */

  /** The frequencies of pairs sorted by descending frequency descend. */
  lemma DescendingValues(sorted: seq<(Byte, int)>)
    requires ByDescendingFrequency(sorted)
    ensures Descending(Values(sorted))
  {
  }

  /** `input.GroupBy(b => b).Select(...).OrderByDescending(s => s.Frequency)`: the symbols, most frequent first. */
  function SortedSymbols(input: seq<Byte>): (s: seq<(Byte, int)>)
    ensures |s| == |FrequencyTable(input)|
  {
    SortByFrequency(FrequencyTable(input))
  }

  /** The symbols come out most frequent first. */
  lemma SortedSymbolsOrdered(input: seq<Byte>)
    ensures ByDescendingFrequency(SortedSymbols(input))
  {
    SortByFrequencyOrder(FrequencyTable(input));
  }

  /** The codes GenerateCodes(freq, 0, freq.Count - 1) gives the sorted symbols, each starting from "". */
  function SortedCodes(sorted: seq<(Byte, int)>): (codes: seq<string>)
    ensures |codes| == |sorted|
  {
    if sorted == [] then [] else SegmentCodes(Values(sorted), 0, |sorted| - 1)
  }

  /** `s.Code.Length > 0 ? s.Code : "0"`. */
  function Fallback(code: string): string {
    if |code| > 0 then code else "0"
  }

  /** `freq.ToDictionary(s => s.Value, s => Fallback(s.Code))`, in list order. */
  function TableOf(sorted: seq<(Byte, int)>, codes: seq<string>): (table: seq<(Byte, string)>)
    requires |codes| == |sorted|
    ensures |table| == |sorted|
    ensures forall i :: 0 <= i < |table| ==> table[i] == (sorted[i].0, Fallback(codes[i]))
  {
    if sorted == [] then [] else [(sorted[0].0, Fallback(codes[0]))] + TableOf(sorted[1..], codes[1..])
  }

  /**
   * The code table BuildTable returns for `input`, in the dictionary's
   * enumeration order: the bytes most frequent first, each with a code that
   * is never empty.
   */
  function CodeTableOf(input: seq<Byte>): (table: seq<(Byte, string)>)
    ensures |table| == |SortedSymbols(input)|
    ensures forall i :: 0 <= i < |table| ==> table[i].0 == SortedSymbols(input)[i].0 && |table[i].1| > 0
  {
    var sorted := SortedSymbols(input);
    TableOf(sorted, SortedCodes(sorted))
  }

  /** Appending suffixes to codes that are all "" gives the suffixes. */
  lemma AppendToBlank(blank: seq<string>, suffixes: seq<string>)
    requires |blank| == |suffixes| && forall i :: 0 <= i < |blank| ==> blank[i] == ""
    ensures AppendAt(blank, 0, suffixes) == suffixes
  {
    forall t | 0 <= t < |blank|
      ensures AppendAt(blank, 0, suffixes)[t] == suffixes[t]
    {
      AppendAtInside(blank, 0, suffixes, t, t);
      assert "" + suffixes[t] == suffixes[t];
    }
  }

  /** The Code fields after `GenerateCodes(freq, 0, freq.Count - 1)` on symbols whose codes start as "". */
  method CodesOf(freq: seq<(Byte, int)>) returns (codes: seq<string>)
    requires ByDescendingFrequency(freq)
    ensures codes == SortedCodes(freq)
  {
    var symbolCodes := new string[|freq|](_ => "");
    ghost var blank := symbolCodes[..];
    assert forall i :: 0 <= i < |blank| ==> blank[i] == "";
    DescendingValues(freq);
    var last := |freq| - 1;
    GenerateCodes(Values(freq), symbolCodes, 0, last);
    if freq != [] {
      AppendToBlank(blank, SortedCodes(freq));
    }
    codes := symbolCodes[..];
  }

  /** BuildTable: group and sort the symbols, generate their codes in place, then build the dictionary. */
  method BuildTable(input: seq<Byte>) returns (table: seq<(Byte, string)>)
    ensures table == CodeTableOf(input)
  {
    var freq := SortedSymbols(input);
    SortedSymbolsOrdered(input);
    var codes := CodesOf(freq);
    table := TableOf(freq, codes);
  }

  /** The sort keeps the grouped pairs: the same multiset of (byte, count) pairs. */
  lemma SortedSymbolsPermutes(input: seq<Byte>)
    ensures multiset(SortedSymbols(input)) == multiset(FrequencyTable(input))
  {
    SortByFrequencyPermutes(FrequencyTable(input));
  }

  /** The table has exactly one entry per distinct input byte. */
  lemma CodeTableKeys(input: seq<Byte>)
    ensures NoDuplicates(Keys(CodeTableOf(input)))
    ensures forall b :: b in Keys(CodeTableOf(input)) <==> b in input
  {
    var freq := FrequencyTable(input);
    var sorted := SortedSymbols(input);
    var table := CodeTableOf(input);
    assert Keys(table) == Keys(sorted);
    SortedSymbolsPermutes(input);
    PermutationKeysDistinct(freq, sorted);
    PermutationSameKeys(freq, sorted);
  }

  /** The codes GenerateCodes gives sorted symbols are prefix-free bit strings, none empty when there are two or more. */
  lemma SortedCodesPrefixFree(sorted: seq<(Byte, int)>)
    ensures PrefixFreeCodes(SortedCodes(sorted))
    ensures forall i :: 0 <= i < |sorted| ==> IsBits(SortedCodes(sorted)[i])
    ensures |sorted| >= 2 ==> BitCodes(SortedCodes(sorted))
  {
    if sorted != [] {
      var f := Values(sorted);
      assert f[0..|f|] == f;
      SuffixesPrefixFree(f);
    }
  }

  /** Replacing the empty code of a lone symbol by "0" leaves prefix-free, non-empty bit strings. */
  lemma FallbackCodes(sorted: seq<(Byte, int)>, codes: seq<string>)
    requires |codes| == |sorted|
    requires PrefixFreeCodes(codes) && forall i :: 0 <= i < |codes| ==> IsBits(codes[i])
    requires |codes| >= 2 ==> BitCodes(codes)
    ensures PrefixFreeCodes(Values(TableOf(sorted, codes)))
    ensures BitCodes(Values(TableOf(sorted, codes)))
  {
    var values := Values(TableOf(sorted, codes));
    if |codes| >= 2 {
      assert values == codes by {
        forall i | 0 <= i < |codes| ensures values[i] == codes[i] {
          assert codes[i] != "";
        }
      }
    }
  }

  /** The codes of the table are non-empty, prefix-free bit strings. */
  lemma CodeTableCodes(input: seq<Byte>)
    ensures PrefixFreeCodes(Values(CodeTableOf(input)))
    ensures BitCodes(Values(CodeTableOf(input)))
  {
    var sorted := SortedSymbols(input);
    SortedCodesPrefixFree(sorted);
    FallbackCodes(sorted, SortedCodes(sorted));
  }

  /** A table with distinct keys and prefix-free non-empty codes gives a prefix-free lookup map of such codes. */
  lemma TableMapPrefixFree(table: seq<(Byte, string)>)
    requires NoDuplicates(Keys(table)) && PrefixFreeCodes(Values(table)) && BitCodes(Values(table))
    ensures PrefixFree(ToMap(table))
    ensures forall b :: b in ToMap(table) ==> IsBits(ToMap(table)[b]) && ToMap(table)[b] != ""
  {
    var m := ToMap(table);
    forall a, b | a in m && b in m && a != b
      ensures !IsPrefix(m[a], m[b])
    {
      var i := ToMapIndex(table, a);
      var j := ToMapIndex(table, b);
      assert Values(table)[i] == m[a] && Values(table)[j] == m[b];
    }
    forall b | b in m ensures IsBits(m[b]) && m[b] != "" {
      var i := ToMapIndex(table, b);
      assert Values(table)[i] == m[b];
    }
  }

  /** As a lookup map: every input byte has a code, and no byte's code is a prefix of another's. */
  lemma CodeTablePrefixFree(input: seq<Byte>)
    ensures Covers(ToMap(CodeTableOf(input)), input)
    ensures PrefixFree(ToMap(CodeTableOf(input)))
    ensures forall b :: b in ToMap(CodeTableOf(input)) ==> IsBits(ToMap(CodeTableOf(input))[b])
  {
    var table := CodeTableOf(input);
    CodeTableKeys(input);
    CodeTableCodes(input);
    TableMapPrefixFree(table);
    forall k | 0 <= k < |input| ensures input[k] in ToMap(table) {
      assert input[k] in input;
    }
  }

  /** What encoding with the table needs: every input byte has a code, and the codes concatenate to bits. */
  lemma CodeTableEncodes(input: seq<Byte>)
    ensures Covers(ToMap(CodeTableOf(input)), input) && IsBits(Encode(input, ToMap(CodeTableOf(input))))
  {
    CodeTablePrefixFree(input);
  }

  /*
   * Compress.
   */

  /** Compress: the code table, and the input's codes joined and packed eight to a byte. */
  method Compress(input: seq<Byte>) returns (compressedData: seq<Byte>, codeTable: seq<(Byte, string)>)
    ensures codeTable == CodeTableOf(input)
    ensures Covers(ToMap(codeTable), input) && IsBits(Encode(input, ToMap(codeTable)))
    ensures compressedData == Pack(Encode(input, ToMap(codeTable)))
  {
    codeTable := BuildTable(input);
    CodeTablePrefixFree(input);
    var bitString := Encode(input, ToMap(codeTable));
    compressedData := PackBits(bitString);
  }

  /*
   * Decompress.
   */

  /**
   * `codeTable.ToDictionary(kv => kv.Value, kv => kv.Key)`: the reverse
   * lookup from code to byte. ToDictionary throws on a code that occurs
   * twice, which Decompress reports as invalid data.
   */
  function ReverseTable(table: seq<(Byte, string)>): (r: Result<map<string, Byte>>)
    ensures r.Ok? <==> NoDuplicates(Values(table))
    ensures r.Ok? ==> forall c :: c in r.value <==> c in Values(table)
    ensures r.Ok? ==> forall i :: 0 <= i < |table| ==> table[i].1 in r.value && r.value[table[i].1] == table[i].0
  {
    if table == [] then Ok(map[])
    else
      var init, last := table[..|table| - 1], table[|table| - 1];
      var rest := ReverseTable(init);
      NoDuplicatesSnoc(Values(init), last.1);
      if rest.Err? then rest
      else if last.1 in rest.value then Err(DuplicateCode)
      else
        ReverseSnoc(table, init, rest.value);
        Ok(rest.value[last.1 := last.0])
  }

  /** Adding the last entry's code to the reverse lookup of the others keeps every entry's lookup. */
  lemma ReverseSnoc(table: seq<(Byte, string)>, init: seq<(Byte, string)>, reverse: map<string, Byte>)
    requires table != [] && init == table[..|table| - 1]
    requires forall i :: 0 <= i < |init| ==> init[i].1 in reverse && reverse[init[i].1] == init[i].0
    requires table[|table| - 1].1 !in reverse
    ensures var last := table[|table| - 1];
      forall i :: 0 <= i < |table| ==> table[i].1 in reverse[last.1 := last.0] && reverse[last.1 := last.0][table[i].1] == table[i].0
  {
  }

  /**
   * The bit loop of Decompress from the current bit on: `buffer` holds the
   * bits read since the last match and `out` the bytes written so far. A
   * match writes its byte and empties the buffer; the loop stops as soon
   * as `size` bytes are written, and otherwise at the end of the bits, where
   * a byte count other than `size` is an error.
   */
  function DecodeCodes(bits: string, reverse: map<string, Byte>, buffer: string, out: seq<Byte>, size: int)
    : (r: Result<seq<Byte>>)
    ensures r.Ok? ==> |r.value| == size && out <= r.value
    decreases |bits|
  {
    if bits == [] then
      if |out| == size then Ok(out) else Err(SizeMismatch(size, |out|))
    else
      var candidate := buffer + bits[..1];
      if candidate in reverse then
        var written := out + [reverse[candidate]];
        if |written| >= size then
          if |written| == size then Ok(written) else Err(SizeMismatch(size, |written|))
        else DecodeCodes(bits[1..], reverse, "", written, size)
      else DecodeCodes(bits[1..], reverse, candidate, out, size)
  }

  /** What Decompress returns: the decoded bytes, or the error it reports. */
  function Decompressed(compressedData: seq<Byte>, codeTable: seq<(Byte, string)>, originalSize: int)
    : (r: Result<seq<Byte>>)
    ensures r.Ok? ==> |r.value| == originalSize && NoDuplicates(Values(codeTable))
  {
    var reverse :- ReverseTable(codeTable);
    DecodeCodes(Unpack(compressedData), reverse, "", [], originalSize)
  }

  /** Decompress: the loop over the unpacked bits, collecting them until they form a known code. */
  method Decompress(compressedData: seq<Byte>, codeTable: seq<(Byte, string)>, originalSize: int)
    returns (r: Result<seq<Byte>>)
    ensures r == Decompressed(compressedData, codeTable, originalSize)
  {
    var reverse :- ReverseTable(codeTable);
    var bitString := Unpack(compressedData);
    var output: seq<Byte> := [];
    var buffer := "";
    var i := 0;
    while i < |bitString|
      invariant 0 <= i <= |bitString|
      invariant DecodeCodes(bitString[i..], reverse, buffer, output, originalSize)
             == DecodeCodes(bitString, reverse, "", [], originalSize)
    {
      assert bitString[i..][1..] == bitString[i + 1..];
      assert bitString[i..][..1] == [bitString[i]];
      buffer := buffer + [bitString[i]];
      if buffer in reverse {
        output := output + [reverse[buffer]];
        buffer := "";
        if |output| >= originalSize {
          break;
        }
      }
      i := i + 1;
    }
    if |output| != originalSize {
      return Err(SizeMismatch(originalSize, |output|));
    }
    return Ok(output);
  }

  /*
   * Round trip.
   */

  /** `code` is a key of `reverse` for `s`, and no shorter non-empty prefix of it is a key. */
  predicate DecodesTo(reverse: map<string, Byte>, code: string, s: Byte) {
    code != "" && code in reverse && reverse[code] == s &&
    forall j :: 0 < j < |code| ==> code[..j] !in reverse
  }

  /** Reading the rest of `code` into a buffer holding its first `k` bits writes `s`, then goes on after it. */
  lemma {:induction false} DecodeOneCode(code: string, k: nat, rest: string, reverse: map<string, Byte>,
                                         out: seq<Byte>, size: int, s: Byte)
    requires DecodesTo(reverse, code, s) && k < |code|
    ensures DecodeCodes(code[k..] + rest, reverse, code[..k], out, size) ==
      if |out| + 1 >= size then
        if |out| + 1 == size then Ok(out + [s]) else Err(SizeMismatch(size, |out| + 1))
      else DecodeCodes(rest, reverse, "", out + [s], size)
    decreases |code| - k
  {
    var bits := code[k..] + rest;
    assert bits[..1] == [code[k]] && bits[1..] == code[k + 1..] + rest;
    assert code[..k] + [code[k]] == code[..k + 1];
    if k + 1 < |code| {
      DecodeOneCode(code, k + 1, rest, reverse, out, size, s);
    } else {
      assert code[..k + 1] == code;
    }
  }

  /** Decoding the codes of `x` followed by any tail writes exactly `x` and stops. */
  lemma {:induction false} DecodeEncodedCodes(x: seq<Byte>, table: map<Byte, string>, reverse: map<string, Byte>,
                                              tail: string, out: seq<Byte>, size: int)
    requires x != [] && Covers(table, x) && size == |out| + |x|
    requires forall b :: b in table ==> DecodesTo(reverse, table[b], b)
    ensures DecodeCodes(Encode(x, table) + tail, reverse, "", out, size) == Ok(out + x)
    decreases |x|
  {
    var code := table[x[0]];
    var rest := Encode(x[1..], table);
    var after := rest + tail;
    assert Encode(x, table) == code + rest;
    assert code[0..] == code && code[..0] == "";
    assert (code + rest) + tail == code + after;
    DecodeOneCode(code, 0, after, reverse, out, size, x[0]);
    if |x| > 1 {
      DecodeEncodedCodes(x[1..], table, reverse, tail, out + [x[0]], size);
      AppendFirstThenRest(out, x);
    } else {
      assert x == [x[0]];
    }
  }

  /** Prefix-free codes are distinct. */
  lemma PrefixFreeDistinct(codes: seq<string>)
    requires PrefixFreeCodes(codes)
    ensures NoDuplicates(codes)
  {
    forall i, j | 0 <= i < j < |codes| ensures codes[i] != codes[j] {
      assert !IsPrefix(codes[i], codes[j]);
    }
  }

  /** No proper prefix of a code of a prefix-free list is a code of the list. */
  lemma ProperPrefixNotCode(codes: seq<string>, i: int, j: int)
    requires PrefixFreeCodes(codes) && 0 <= i < |codes| && 0 < j < |codes[i]|
    ensures codes[i][..j] !in codes
  {
    if codes[i][..j] in codes {
      var q :| 0 <= q < |codes| && codes[q] == codes[i][..j];
      assert IsPrefix(codes[q], codes[i]);
    }
  }

  /** With distinct keys and prefix-free non-empty codes, the reverse table exists and decodes every code. */
  lemma TableDecodes(table: seq<(Byte, string)>)
    requires NoDuplicates(Keys(table)) && PrefixFreeCodes(Values(table)) && BitCodes(Values(table))
    ensures ReverseTable(table).Ok?
    ensures forall b :: b in ToMap(table) ==> DecodesTo(ReverseTable(table).value, ToMap(table)[b], b)
  {
    var values := Values(table);
    PrefixFreeDistinct(values);
    var reverse := ReverseTable(table).value;
    var m := ToMap(table);
    forall b | b in m ensures DecodesTo(reverse, m[b], b) {
      var i := ToMapIndex(table, b);
      var code := values[i];
      assert code != "" && reverse[code] == b;
      forall j | 0 < j < |code| ensures code[..j] !in reverse {
        ProperPrefixNotCode(values, i, j);
      }
    }
  }

  /**
   * Any table with distinct bytes and prefix-free, non-empty codes decodes
   * what it encoded: the packed stream, with the input's length, gives the
   * input back.
   */
  lemma {:induction false} TableRoundTrip(input: seq<Byte>, table: seq<(Byte, string)>)
    requires NoDuplicates(Keys(table)) && PrefixFreeCodes(Values(table)) && BitCodes(Values(table))
    requires Covers(ToMap(table), input)
    ensures IsBits(Encode(input, ToMap(table)))
    ensures Decompressed(Pack(Encode(input, ToMap(table))), table, |input|) == Ok(input)
  {
    var m := ToMap(table);
    var bits := Encode(input, m);
    assert IsBits(bits) by {
      TableMapPrefixFree(table);
    }
    TableDecodes(table);
    DecodePacked(input, m, ReverseTable(table).value, bits);
  }

  /** The unpacked stream of an encoding decodes to the encoded bytes: the padding bits after them are never read. */
  lemma DecodePacked(input: seq<Byte>, table: map<Byte, string>, reverse: map<string, Byte>, bits: string)
    requires Covers(table, input) && bits == Encode(input, table) && IsBits(bits)
    requires forall b :: b in table ==> DecodesTo(reverse, table[b], b)
    ensures DecodeCodes(Unpack(Pack(bits)), reverse, "", [], |input|) == Ok(input)
  {
    var u := Unpack(Pack(bits));
    if input == [] {
      assert u == "";
    } else {
      assert u == bits + Zeros(|u| - |bits|) by {
        UnpackPack(bits);
      }
      DecodeEncodedCodes(input, table, reverse, Zeros(|u| - |bits|), [], |input|);
      assert [] + input == input;
    }
  }

  /**
   * Round trip: decompressing what Compress produced, with its table and
   * the input's length, gives the input back, for every input.
   */
  lemma ShannonFanoRoundTrip(input: seq<Byte>)
    ensures Covers(ToMap(CodeTableOf(input)), input)
    ensures IsBits(Encode(input, ToMap(CodeTableOf(input))))
    ensures Decompressed(Pack(Encode(input, ToMap(CodeTableOf(input)))), CodeTableOf(input), |input|) == Ok(input)
  {
    CodeTableKeys(input);
    CodeTableCodes(input);
    CodeTablePrefixFree(input);
    TableRoundTrip(input, CodeTableOf(input));
  }
}
