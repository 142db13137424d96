/*
 * Vocabulary shared by every part of the compressor model: bytes, the
 * exceptions the core raises, a failure-compatible result type, and the
 * insertion-ordered dictionaries of the .NET runtime.
 */
module Common {

  /** One byte of a file or of an archive. */
  type Byte = x: int | 0 <= x < 256

  const Int32Max: int := 0x7FFF_FFFF
  const Int32Min: int := -0x8000_0000

  /** The values a C# `int` can hold. */
  predicate IsInt32(x: int) {
    Int32Min <= x <= Int32Max
  }

  const TwoTo31: int := 0x8000_0000
  const TwoTo32: int := 0x1_0000_0000

  /** Two ints that a C# `int` cannot tell apart: they differ by a multiple of 2^32. */
  predicate Congruent32(a: int, b: int) {
    (a - b) % TwoTo32 == 0
  }

  /** C#'s unchecked `int` addition: the sum wrapped into the int range. */
  function WrappingAdd(a: int, b: int): (s: int)
    ensures IsInt32(s) && Congruent32(s, a + b)
    ensures IsInt32(a + b) ==> s == a + b
  {
    var k := (a + b + TwoTo31) / TwoTo32;
    assert (a + b + TwoTo31) % TwoTo32 - TwoTo31 - (a + b) == -k * TwoTo32;
    (a + b + TwoTo31) % TwoTo32 - TwoTo31
  }

  lemma CongruentTrans(a: int, b: int, c: int)
    requires Congruent32(a, b) && Congruent32(b, c)
    ensures Congruent32(a, c)
  {
    var i, j := (a - b) / TwoTo32, (b - c) / TwoTo32;
    assert a - c == (i + j) * TwoTo32;
  }

  lemma CongruentShift(a: int, b: int, c: int)
    requires Congruent32(a, b)
    ensures Congruent32(a + c, b + c)
  {
    assert (a + c) - (b + c) == a - b;
  }

  /** Congruent ints that both fit in an `int` are equal. */
  lemma CongruentInt32(a: int, b: int)
    requires IsInt32(a) && IsInt32(b) && Congruent32(a, b)
    ensures a == b
  {
    var k := (a - b) / TwoTo32;
    assert a - b == k * TwoTo32;
  }

  /** The exceptions of the core, one constructor per cause. */
  datatype Error =
    | EndOfStream                          // a BinaryReader read ran past the end
    | InvalidFileCount(count: int)         // negative entry count in the header
    | InvalidNameLength(length: int)       // name length <= 0
    | InvalidTableCount(count: int)        // negative table record count
    | InvalidPayloadLength(length: int)    // negative payload length
    | NegativeByteCount(count: int)        // BinaryReader.ReadBytes(count) with count < 0
    | SeekBeforeBegin                      // Stream.Position set to a negative value
    | Bad7BitInt                           // malformed 7-bit encoded string length
    | NegativeStringLength(length: int)    // BinaryReader.ReadString of a negative length
    | CapacityExceeded                     // a length does not fit in an int32
    | QueueEmpty                           // PriorityQueue.Dequeue on an empty queue
    | InvalidBitSequence                   // Huffman decoding stepped to a missing child
    | SizeMismatch(expected: int, written: int)  // decoded byte count != original size
    | DuplicateCode                        // two table entries share one code string

  /** Either a value or the exception that replaced it. */
  datatype Result<T> = Ok(value: T) | Err(error: Error) {
    predicate IsFailure() {
      Err?
    }

    function PropagateFailure<U>(): Result<U>
      requires Err?
    {
      Err(error)
    }

    function Extract(): T
      requires Ok?
    {
      value
    }
  }

  datatype Option<T> = None | Some(value: T)

  /** A value read from a byte stream, and the stream position after it. */
  datatype Read<T> = Read(value: T, next: nat)

  /** `acc + xs` for a successful result; failures pass through unchanged. */
  function Prepend<T>(acc: seq<T>, r: Result<seq<T>>): (p: Result<seq<T>>)
    ensures p.Ok? <==> r.Ok?
    ensures p.Ok? ==> p.value == acc + r.value
  {
    match r
    case Ok(xs) => Ok(acc + xs)
    case Err(e) => Err(e)
  }

  lemma PrependNothing<T>(r: Result<seq<T>>)
    ensures Prepend([], r) == r
  {
    if r.Ok? {
      assert [] + r.value == r.value;
    }
  }

  lemma PrependTwice<T>(a: seq<T>, b: seq<T>, r: Result<seq<T>>)
    ensures Prepend(a, Prepend(b, r)) == Prepend(a + b, r)
  {
    if r.Ok? {
      assert a + (b + r.value) == (a + b) + r.value;
    }
  }

  /** Writing the first element of `x` and then the rest is writing `x`. */
  lemma AppendFirstThenRest<T>(out: seq<T>, x: seq<T>)
    requires x != []
    ensures out + [x[0]] + x[1..] == out + x
  {
    assert x == [x[0]] + x[1..];
  }

  /** `f` applied to each element, in order. */
  function MapSeq<A, B>(f: A -> B, xs: seq<A>): (ys: seq<B>)
    ensures |ys| == |xs| && forall i :: 0 <= i < |xs| ==> ys[i] == f(xs[i])
  {
    seq(|xs|, i requires 0 <= i < |xs| => f(xs[i]))
  }

  /** Mapping the elements after the first gives the images after the first. */
  lemma MapSeqTail<A, B>(f: A -> B, xs: seq<A>)
    requires xs != []
    ensures MapSeq(f, xs)[1..] == MapSeq(f, xs[1..])
  {
    var all, rest := MapSeq(f, xs)[1..], MapSeq(f, xs[1..]);
    forall j | 0 <= j < |rest| ensures all[j] == rest[j] {
      assert xs[1..][j] == xs[j + 1];
    }
  }

  /** Mapping one more element appends its image. */
  lemma MapSeqSnoc<A, B>(f: A -> B, xs: seq<A>, i: nat)
    requires i < |xs|
    ensures MapSeq(f, xs[..i + 1]) == MapSeq(f, xs[..i]) + [f(xs[i])]
  {
    var longer, shorter := MapSeq(f, xs[..i + 1]), MapSeq(f, xs[..i]) + [f(xs[i])];
    forall j | 0 <= j < |longer| ensures longer[j] == shorter[j] {
      assert xs[..i + 1][j] == xs[j];
      if j < i {
        assert xs[..i][j] == xs[j];
      }
    }
  }

  /** The first `i + 1` elements are the first `i` and then element `i`. */
  lemma TakeSnoc<T>(xs: seq<T>, i: nat)
    requires i < |xs|
    ensures xs[..i] + [xs[i]] == xs[..i + 1]
  {
  }

  /** No element occurs twice. */
  predicate NoDuplicates<T(==)>(s: seq<T>) {
    forall i, j :: 0 <= i < j < |s| ==> s[i] != s[j]
  }

  lemma {:induction false} NoDuplicatesCount<T>(s: seq<T>, x: T)
    requires NoDuplicates(s)
    ensures multiset(s)[x] <= 1
  {
    if s != [] {
      var t := s[1..];
      assert s == [s[0]] + t;
      assert NoDuplicates(t);
      NoDuplicatesCount(t, x);
      assert forall k :: 0 <= k < |t| ==> t[k] == s[k + 1] != s[0];
      assert s[0] !in t;
    }
  }

  lemma TwoOccurrences<T>(s: seq<T>, i: nat, j: nat)
    requires i < j < |s| && s[i] == s[j]
    ensures multiset(s)[s[i]] >= 2
  {
    assert s == s[..j] + s[j..];
    assert s[i] in s[..j];
    assert s[j] in s[j..];
    assert multiset(s) == multiset(s[..j]) + multiset(s[j..]);
  }

  /** Both halves of a duplicate-free sequence are duplicate-free, and they share no element. */
  lemma NoDuplicatesSplit<T>(a: seq<T>, b: seq<T>)
    requires NoDuplicates(a + b)
    ensures NoDuplicates(a) && NoDuplicates(b)
    ensures forall x :: x in a ==> x !in b
  {
    forall i, j | 0 <= i < j < |a| ensures a[i] != a[j] {
      assert (a + b)[i] == a[i] && (a + b)[j] == a[j];
    }
    forall i, j | 0 <= i < j < |b| ensures b[i] != b[j] {
      assert (a + b)[|a| + i] == b[i] && (a + b)[|a| + j] == b[j];
    }
    forall x | x in a ensures x !in b {
      var i :| 0 <= i < |a| && a[i] == x;
      if j :| 0 <= j < |b| && b[j] == x {
        assert (a + b)[i] == (a + b)[|a| + j];
      }
    }
  }

  /** Having no duplicates depends only on the multiset of elements. */
  lemma NoDuplicatesPermutation<T>(a: seq<T>, b: seq<T>)
    requires multiset(a) == multiset(b) && NoDuplicates(a)
    ensures NoDuplicates(b)
  {
    forall i, j | 0 <= i < j < |b|
      ensures b[i] != b[j]
    {
      if b[i] == b[j] {
        TwoOccurrences(b, i, j);
        NoDuplicatesCount(a, b[i]);
        assert false;
      }
    }
  }

  /*
   * A .NET Dictionary<K, V> that is only ever inserted into enumerates its
   * pairs in insertion order; it is modelled as that sequence of pairs.
   */

  function Keys<K, V>(d: seq<(K, V)>): (ks: seq<K>)
    ensures |ks| == |d|
    ensures forall i :: 0 <= i < |d| ==> ks[i] == d[i].0
  {
    if d == [] then [] else [d[0].0] + Keys(d[1..])
  }

  lemma {:induction false} KeysAppend<K, V>(a: seq<(K, V)>, b: seq<(K, V)>)
    ensures Keys(a + b) == Keys(a) + Keys(b)
  {
    if a == [] {
      assert a + b == b;
    } else {
      assert (a + b)[1..] == a[1..] + b;
      KeysAppend(a[1..], b);
    }
  }

  lemma KeysSnoc<K, V>(d: seq<(K, V)>, init: seq<(K, V)>, last: (K, V))
    requires d != [] && init == d[..|d| - 1] && last == d[|d| - 1]
    ensures Keys(d) == Keys(init) + [last.0]
  {
    assert d == init + [last];
    KeysAppend(init, [last]);
  }

  function Values<K, V>(d: seq<(K, V)>): (vs: seq<V>)
    ensures |vs| == |d|
    ensures forall i :: 0 <= i < |d| ==> vs[i] == d[i].1
  {
    if d == [] then [] else Values(d[..|d| - 1]) + [d[|d| - 1].1]
  }

  /** `dictionary[k] = v`: replaces the value of an existing key in place, else appends. */
  function Set<K(==), V>(d: seq<(K, V)>, k: K, v: V): (r: seq<(K, V)>)
    ensures r != [] && |d| <= |r| <= |d| + 1
  {
    if d == [] then [(k, v)]
    else if d[0].0 == k then [(k, v)] + d[1..]
    else [d[0]] + Set(d[1..], k, v)
  }

  /** Setting a key keeps the keys and their order, and appends a new key last. */
  lemma {:induction false} SetKeys<K, V>(d: seq<(K, V)>, k: K, v: V)
    ensures Keys(Set(d, k, v)) == if k in Keys(d) then Keys(d) else Keys(d) + [k]
  {
    if d != [] {
      assert Keys(d) == [d[0].0] + Keys(d[1..]);
      if d[0].0 == k {
        assert Keys([(k, v)] + d[1..]) == [k] + Keys(d[1..]);
      } else {
        SetKeys(d[1..], k, v);
        assert Keys([d[0]] + Set(d[1..], k, v)) == [d[0].0] + Keys(Set(d[1..], k, v));
      }
    }
  }

  /** Setting a key keeps the keys distinct. */
  lemma SetDistinct<K, V>(d: seq<(K, V)>, k: K, v: V)
    requires NoDuplicates(Keys(d))
    ensures NoDuplicates(Keys(Set(d, k, v)))
  {
    SetKeys(d, k, v);
    if k !in Keys(d) {
      NoDuplicatesSnoc(Keys(d), k);
    }
  }

  /** After setting, the key looks up the new value and every other key its old one. */
  lemma {:induction false} SetLookup<K, V>(d: seq<(K, V)>, k: K, v: V)
    ensures ToMap(Set(d, k, v)) == ToMap(d)[k := v]
  {
    if d == [] {
    } else if d[0].0 == k {
      ToMapCons((k, v), d[1..]);
      ToMapCons(d[0], d[1..]);
      assert d == [d[0]] + d[1..];
    } else {
      SetLookup(d[1..], k, v);
      ToMapCons(d[0], Set(d[1..], k, v));
      ToMapCons(d[0], d[1..]);
      assert d == [d[0]] + d[1..];
      UpdatesCommute(ToMap(d[1..]), k, v, d[0].0, d[0].1);
    }
  }

  /** Updates of two different keys can be made in either order. */
  lemma UpdatesCommute<K, V>(m: map<K, V>, k: K, v: V, k': K, v': V)
    requires k != k'
    ensures m[k := v][k' := v'] == m[k' := v'][k := v]
  {
  }

  /** The lookup view of a pair in front of others: the others' view with that pair written over it. */
  lemma ToMapCons<K, V>(p: (K, V), d: seq<(K, V)>)
    ensures ToMap([p] + d) == ToMap(d)[p.0 := p.1]
  {
    assert ([p] + d)[1..] == d;
  }

  /** With distinct keys, setting an existing key replaces its pair where it stands and keeps every other pair. */
  lemma {:induction false} SetInPlace<K, V>(d: seq<(K, V)>, k: K, v: V)
    requires NoDuplicates(Keys(d)) && k in Keys(d)
    ensures |Set(d, k, v)| == |d|
    ensures forall i :: 0 <= i < |d| ==> Set(d, k, v)[i] == if d[i].0 == k then (k, v) else d[i]
  {
    assert Keys(d) == [d[0].0] + Keys(d[1..]);
    if d[0].0 == k {
      forall i | 1 <= i < |d| ensures d[i].0 != k {
        assert Keys(d)[i] == d[i].0 && Keys(d)[0] == k;
      }
    } else {
      forall i, j | 0 <= i < j < |Keys(d[1..])| ensures Keys(d[1..])[i] != Keys(d[1..])[j] {
        assert Keys(d[1..])[i] == Keys(d)[i + 1] && Keys(d[1..])[j] == Keys(d)[j + 1];
      }
      SetInPlace(d[1..], k, v);
      forall i | 1 <= i < |d| ensures Set(d, k, v)[i] == Set(d[1..], k, v)[i - 1] && d[i] == d[1..][i - 1] {
      }
    }
  }

  /** Setting a key the dictionary does not have appends the pair. */
  lemma {:induction false} SetFresh<K, V>(d: seq<(K, V)>, k: K, v: V)
    requires k !in Keys(d)
    ensures Set(d, k, v) == d + [(k, v)]
  {
    if d != [] {
      assert Keys(d) == [d[0].0] + Keys(d[1..]);
      SetFresh(d[1..], k, v);
      assert [d[0]] + (d[1..] + [(k, v)]) == d + [(k, v)];
    }
  }

  /** Distinct keys stay distinct when the pairs are permuted. */
  lemma PermutationKeysDistinct<K, V>(a: seq<(K, V)>, b: seq<(K, V)>)
    requires multiset(a) == multiset(b) && NoDuplicates(Keys(a))
    ensures NoDuplicates(Keys(b))
  {
    assert NoDuplicates(a);
    NoDuplicatesPermutation(a, b);
    forall i, j | 0 <= i < j < |b|
      ensures b[i].0 != b[j].0
    {
      assert b[i] in multiset(a) && b[j] in multiset(a);
      var x :| 0 <= x < |a| && a[x] == b[i];
      var y :| 0 <= y < |a| && a[y] == b[j];
      if x != y {
        assert Keys(a)[x] == b[i].0 && Keys(a)[y] == b[j].0;
      }
    }
  }

  /** Permuting the pairs keeps the set of keys. */
  lemma PermutationSameKeys<K, V>(a: seq<(K, V)>, b: seq<(K, V)>)
    requires multiset(a) == multiset(b)
    ensures forall k :: k in Keys(a) <==> k in Keys(b)
  {
    forall k | k in Keys(a) ensures k in Keys(b) {
      var i :| 0 <= i < |a| && Keys(a)[i] == k;
      assert a[i] in multiset(b);
      var j :| 0 <= j < |b| && b[j] == a[i];
      assert Keys(b)[j] == k;
    }
    forall k | k in Keys(b) ensures k in Keys(a) {
      var j :| 0 <= j < |b| && Keys(b)[j] == k;
      assert b[j] in multiset(a);
      var i :| 0 <= i < |a| && a[i] == b[j];
      assert Keys(a)[i] == k;
    }
  }

  /** Appending `x` keeps a sequence duplicate-free exactly when `x` is new. */
  lemma NoDuplicatesSnoc<T>(a: seq<T>, x: T)
    ensures NoDuplicates(a + [x]) <==> NoDuplicates(a) && x !in a
  {
    if NoDuplicates(a + [x]) {
      NoDuplicatesSplit(a, [x]);
    }
    if NoDuplicates(a) && x !in a {
      forall i, j | 0 <= i < j < |a + [x]| ensures (a + [x])[i] != (a + [x])[j] {
        if j == |a| {
          assert (a + [x])[i] == a[i];
        } else {
          assert (a + [x])[i] == a[i] && (a + [x])[j] == a[j];
        }
      }
    }
  }

  /** The lookup view of a dictionary with distinct keys. */
  function ToMap<K(==), V>(d: seq<(K, V)>): (m: map<K, V>)
    ensures m.Keys == set x | x in Keys(d)
  {
    if d == [] then map[]
    else
      var rest := ToMap(d[1..]);
      assert Keys(d) == [d[0].0] + Keys(d[1..]);
      rest[d[0].0 := d[0].1]
  }

  /** With distinct keys, the lookup view maps each key to the value stored with it. */
  lemma {:induction false} ToMapAt<K, V>(d: seq<(K, V)>)
    requires NoDuplicates(Keys(d))
    ensures forall i :: 0 <= i < |d| ==> ToMap(d)[d[i].0] == d[i].1
  {
    if d != [] {
      var rest := d[1..];
      assert forall i :: 0 <= i < |rest| ==> Keys(rest)[i] == Keys(d)[i + 1];
      ToMapAt(rest);
      forall i | 1 <= i < |d| ensures ToMap(d)[d[i].0] == d[i].1 {
        assert Keys(d)[0] != Keys(d)[i];
        assert rest[i - 1] == d[i];
      }
    }
  }

  /** The entry behind a key of the lookup view. */
  lemma ToMapIndex<K, V>(d: seq<(K, V)>, k: K) returns (i: nat)
    requires NoDuplicates(Keys(d)) && k in ToMap(d)
    ensures i < |d| && d[i].0 == k && ToMap(d)[k] == d[i].1
  {
    assert k in Keys(d);
    i :| 0 <= i < |d| && Keys(d)[i] == k;
    ToMapAt(d);
  }

  /** Sum of the integer values of a dictionary (LINQ `Sum`). */
  function SumValues<K>(d: seq<(K, int)>): int {
    if d == [] then 0 else d[0].1 + SumValues(d[1..])
  }

  lemma {:induction false} SumValuesAppend<K>(a: seq<(K, int)>, b: seq<(K, int)>)
    ensures SumValues(a + b) == SumValues(a) + SumValues(b)
  {
    if a == [] {
      assert a + b == b;
    } else {
      assert (a + b)[1..] == a[1..] + b;
      SumValuesAppend(a[1..], b);
    }
  }
}
