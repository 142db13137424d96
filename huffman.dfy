/*
 * The Huffman codec of Form1.cs (static class Huffman): the prefix tree,
 * BuildHuffmanTree, BuildEncodingTable / BuildTableRecursive, EncodeData
 * and DecodeData.
 */
module Huffman {
  import opened Common
  import opened BitPacker
  import opened Frequency
  import opened PriorityQueues

  /**
   * Huffman.Node. A leaf owns one byte; an internal node owns exactly two
   * children and a combined frequency (IsLeaf is `Leaf?`).
   */
  datatype Tree = Leaf(symbol: Byte, frequency: int) | Node(left: Tree, right: Tree, frequency: int)

  /** The bytes at the leaves, left to right. */
  function LeafSymbols(t: Tree): (s: seq<Byte>)
    ensures |s| >= 1
    ensures t.Leaf? <==> |s| == 1
  {
    match t
    case Leaf(b, _) => [b]
    case Node(l, r, _) => LeafSymbols(l) + LeafSymbols(r)
  }

  /** Every internal node's frequency is the unchecked int sum of its children's. */
  predicate Weighted(t: Tree) {
    match t
    case Leaf(_, _) => true
    case Node(l, r, f) => f == WrappingAdd(l.frequency, r.frequency) && Weighted(l) && Weighted(r)
  }

  /*
   * BuildHuffmanTree as a function of the ordered (byte, count) table: one
   * leaf per table entry is enqueued with its count as priority, then the
   * two front items are merged until at most one is left.
   */

  /** The queue after the `foreach (var pair in freq)` enqueue loop. */
  function InitialQueue(freq: seq<(Byte, int)>): (q: seq<(Tree, int)>)
    ensures |q| == |freq|
  {
    if freq == [] then []
    else
      var e := freq[|freq| - 1];
      InsertByPriority(InitialQueue(freq[..|freq| - 1]), (Leaf(e.0, e.1), e.1))
  }

  /**
   * The parent of the two front items, with its frequency as priority. The
   * frequencies are C# ints, so their sum wraps around past Int32Max.
   */
  function Parent(q: seq<(Tree, int)>): (x: (Tree, int))
    requires |q| >= 2
    ensures x.0 == Node(q[0].0, q[1].0, x.1)
    ensures IsInt32(x.1) && Congruent32(x.1, q[0].0.frequency + q[1].0.frequency)
    ensures IsInt32(q[0].0.frequency + q[1].0.frequency) ==> x.1 == q[0].0.frequency + q[1].0.frequency
  {
    var f := WrappingAdd(q[0].0.frequency, q[1].0.frequency);
    (Node(q[0].0, q[1].0, f), f)
  }

  /** One pass of the `while (pq.Count > 1)` loop: dequeue two, enqueue their parent. */
  function MergeStep(q: seq<(Tree, int)>): (r: seq<(Tree, int)>)
    requires |q| >= 2
    ensures |r| == |q| - 1
  {
    InsertByPriority(q[2..], Parent(q))
  }

  /** The whole merge loop. */
  function MergeAll(q: seq<(Tree, int)>): (r: seq<(Tree, int)>)
    ensures |q| >= 1 ==> |r| == 1
    ensures |q| == 0 ==> r == []
    decreases |q|
  {
    if |q| <= 1 then q else MergeAll(MergeStep(q))
  }

  /** The root BuildHuffmanTree returns; the final Dequeue throws on an empty table. */
  function HuffmanTree(freq: seq<(Byte, int)>): (root: Result<Tree>)
    ensures root.Ok? <==> freq != []
  {
    var q := MergeAll(InitialQueue(freq));
    if q == [] then Err(QueueEmpty) else Ok(q[0].0)
  }

  /** BuildHuffmanTree, driving the sorted-list priority queue. */
  method BuildHuffmanTree(freq: seq<(Byte, int)>) returns (root: Result<Tree>)
    ensures root == HuffmanTree(freq)
  {
    var pq := EnqueueLeaves(freq);
    root := MergeQueue(pq);
  }

  /** The first loop of BuildHuffmanTree: one leaf per table entry, in table order. */
  method EnqueueLeaves(freq: seq<(Byte, int)>) returns (pq: PriorityQueue<Tree>)
    ensures fresh(pq) && pq.Valid() && pq.heap == InitialQueue(freq)
  {
    pq := new PriorityQueue<Tree>();
    for i := 0 to |freq|
      invariant pq.Valid() && pq.heap == InitialQueue(freq[..i])
    {
      assert freq[..i + 1][..i] == freq[..i] && freq[..i + 1][i] == freq[i];
      pq.Enqueue(Leaf(freq[i].0, freq[i].1), freq[i].1);
    }
    assert freq[..|freq|] == freq;
  }

  /** The second loop of BuildHuffmanTree and its final Dequeue. */
  method MergeQueue(pq: PriorityQueue<Tree>) returns (root: Result<Tree>)
    requires pq.Valid()
    modifies pq
    ensures var q := MergeAll(old(pq.heap)); root == if q == [] then Err(QueueEmpty) else Ok(q[0].0)
  {
    while pq.Count() > 1
      invariant pq.Valid() && MergeAll(pq.heap) == MergeAll(old(pq.heap))
      decreases pq.Count()
    {
      ghost var before := pq.heap;
      var left := pq.Dequeue();
      var right := pq.Dequeue();
      var l, r := left.value, right.value;
      var parent := Node(l, r, WrappingAdd(l.frequency, r.frequency));
      ghost var rest := pq.heap;
      pq.Enqueue(parent, parent.frequency);
      MergeStepOf(before, rest, pq.heap, parent);
    }
    root := pq.Dequeue();
  }

  /** Dequeueing the two front trees and enqueueing their parent is one merge step. */
  lemma MergeStepOf(before: seq<(Tree, int)>, rest: seq<(Tree, int)>, after: seq<(Tree, int)>, parent: Tree)
    requires |before| >= 2 && rest == before[1..][1..]
    requires parent == Node(before[0].0, before[1..][0].0, WrappingAdd(before[0].0.frequency, before[1..][0].0.frequency))
    requires after == InsertByPriority(rest, (parent, parent.frequency))
    ensures after == MergeStep(before) && MergeAll(after) == MergeAll(before)
  {
    assert before[1..][1..] == before[2..];
  }

  /* Facts about the queue that the merge loop preserves. */

  /** The leaf bytes of every queued tree, front to back. */
  function QueueSymbols(q: seq<(Tree, int)>): seq<Byte> {
    if q == [] then [] else LeafSymbols(q[0].0) + QueueSymbols(q[1..])
  }

  /** Each queued item's priority is its tree's frequency, and each tree is weighted. */
  predicate WellFormedQueue(q: seq<(Tree, int)>) {
    forall i :: 0 <= i < |q| ==> q[i].1 == q[i].0.frequency && Weighted(q[i].0)
  }

  lemma {:induction false} QueueSymbolsAppend(a: seq<(Tree, int)>, b: seq<(Tree, int)>)
    ensures QueueSymbols(a + b) == QueueSymbols(a) + QueueSymbols(b)
  {
    if a == [] {
      assert a + b == b;
    } else {
      assert (a + b)[1..] == a[1..] + b;
      QueueSymbolsAppend(a[1..], b);
    }
  }

  /** Enqueue adds the new tree's leaves to the queue's leaves. */
  lemma InsertSymbols(q: seq<(Tree, int)>, x: (Tree, int))
    ensures multiset(QueueSymbols(InsertByPriority(q, x)))
         == multiset(QueueSymbols(q)) + multiset(LeafSymbols(x.0))
  {
    var k := InsertionPoint(q, x.1);
    var a, b := q[..k], q[k..];
    assert InsertByPriority(q, x) == (a + [x]) + b;
    assert q == a + b;
    QueueSymbolsAppend(a, b);
    QueueSymbolsAppend(a + [x], b);
    QueueSymbolsAppend(a, [x]);
    assert QueueSymbols([x]) == LeafSymbols(x.0) + QueueSymbols([]);
  }

  /** Enqueue adds the new item's priority to the queue's total. */
  lemma InsertSum(q: seq<(Tree, int)>, x: (Tree, int))
    ensures SumValues(InsertByPriority(q, x)) == SumValues(q) + x.1
  {
    var k := InsertionPoint(q, x.1);
    var a, b := q[..k], q[k..];
    assert InsertByPriority(q, x) == (a + [x]) + b;
    assert q == a + b;
    SumValuesAppend(a, b);
    SumValuesAppend(a + [x], b);
    SumValuesAppend(a, [x]);
    assert SumValues([x]) == x.1 + SumValues([x][1..]);
  }

  /** Enqueue keeps the queue sorted and well formed. */
  lemma InsertWellFormed(q: seq<(Tree, int)>, x: (Tree, int))
    requires SortedByPriority(q) && WellFormedQueue(q)
    requires x.1 == x.0.frequency && Weighted(x.0)
    ensures SortedByPriority(InsertByPriority(q, x)) && WellFormedQueue(InsertByPriority(q, x))
  {
    InsertKeepsOrder(q, x);
    var r := InsertByPriority(q, x);
    forall i | 0 <= i < |r|
      ensures r[i].1 == r[i].0.frequency && Weighted(r[i].0)
    {
      InsertPermutes(q, x);
      assert r[i] in multiset(q) + multiset{x};
    }
  }

  /** Enqueue adds the new tree's leaves and priority to the queue and keeps it well formed. */
  lemma InsertFacts(q: seq<(Tree, int)>, x: (Tree, int))
    requires SortedByPriority(q) && WellFormedQueue(q)
    requires x.1 == x.0.frequency && Weighted(x.0)
    ensures var r := InsertByPriority(q, x);
      && SortedByPriority(r) && WellFormedQueue(r)
      && multiset(QueueSymbols(r)) == multiset(QueueSymbols(q)) + multiset(LeafSymbols(x.0))
      && SumValues(r) == SumValues(q) + x.1
  {
    InsertWellFormed(q, x);
    InsertSymbols(q, x);
    InsertSum(q, x);
  }

  lemma {:induction false} InitialQueueWellFormed(freq: seq<(Byte, int)>)
    ensures SortedByPriority(InitialQueue(freq)) && WellFormedQueue(InitialQueue(freq))
  {
    if freq != [] {
      var e := freq[|freq| - 1];
      InitialQueueWellFormed(freq[..|freq| - 1]);
      InsertWellFormed(InitialQueue(freq[..|freq| - 1]), (Leaf(e.0, e.1), e.1));
    }
  }

  lemma {:induction false} InitialQueueSymbols(freq: seq<(Byte, int)>)
    ensures multiset(QueueSymbols(InitialQueue(freq))) == multiset(Keys(freq))
  {
    if freq != [] {
      var init := freq[..|freq| - 1];
      var e := freq[|freq| - 1];
      var q0 := InitialQueue(init);
      InitialQueueSymbols(init);
      EnqueueLeafSymbols(freq, init, e, q0, InitialQueue(freq));
    }
  }

  /** Enqueueing the leaf of the last table entry adds its byte to the queue's leaves. */
  lemma EnqueueLeafSymbols(freq: seq<(Byte, int)>, init: seq<(Byte, int)>, e: (Byte, int),
                           q0: seq<(Tree, int)>, q: seq<(Tree, int)>)
    requires freq != [] && init == freq[..|freq| - 1] && e == freq[|freq| - 1]
    requires q == InsertByPriority(q0, (Leaf(e.0, e.1), e.1))
    requires multiset(QueueSymbols(q0)) == multiset(Keys(init))
    ensures multiset(QueueSymbols(q)) == multiset(Keys(freq))
  {
    KeysSnoc(freq, init, e);
    InsertSymbols(q0, (Leaf(e.0, e.1), e.1));
    assert LeafSymbols(Leaf(e.0, e.1)) == [e.0];
  }

  lemma {:induction false} InitialQueueSum(freq: seq<(Byte, int)>)
    ensures SumValues(InitialQueue(freq)) == SumValues(freq)
  {
    if freq != [] {
      var init := freq[..|freq| - 1];
      var e := freq[|freq| - 1];
      InitialQueueSum(init);
      InsertSum(InitialQueue(init), (Leaf(e.0, e.1), e.1));
      assert freq == init + [e];
      SumValuesAppend(init, [e]);
      assert SumValues([e]) == e.1 + SumValues([e][1..]);
    }
  }

  /** A merge keeps the queue sorted and well formed, and its total the same up to int wrap-around. */
  lemma MergeStepFacts(q: seq<(Tree, int)>)
    requires |q| >= 2 && SortedByPriority(q) && WellFormedQueue(q)
    ensures SortedByPriority(MergeStep(q)) && WellFormedQueue(MergeStep(q))
    ensures Congruent32(SumValues(MergeStep(q)), SumValues(q))
  {
    InsertWellFormed(q[2..], Parent(q));
    assert q[1..][1..] == q[2..];
    MergeStepSum(q, Parent(q), SumValues(q[2..]));
  }

  lemma MergeStepSum(q: seq<(Tree, int)>, x: (Tree, int), rest: int)
    requires |q| >= 2 && q[0].1 == q[0].0.frequency && q[1].1 == q[1].0.frequency
    requires x == Parent(q) && rest == SumValues(q[2..])
    ensures Congruent32(SumValues(MergeStep(q)), SumValues(q))
  {
    var s := q[0].0.frequency + q[1].0.frequency;
    InsertSum(q[2..], x);
    assert SumValues(MergeStep(q)) == x.1 + rest;
    assert q[1..][1..] == q[2..];
    assert SumValues(q[1..]) == q[1].1 + rest;
    assert SumValues(q) == s + rest;
    CongruentShift(x.1, s, rest);
  }

  lemma MergeStepSymbols(q: seq<(Tree, int)>)
    requires |q| >= 2
    ensures multiset(QueueSymbols(MergeStep(q))) == multiset(QueueSymbols(q))
  {
    var x := Parent(q);
    var a, b, rest := LeafSymbols(q[0].0), LeafSymbols(q[1].0), QueueSymbols(q[2..]);
    InsertSymbols(q[2..], x);
    assert LeafSymbols(x.0) == a + b;
    QueueSymbolsFrontTwo(q, a, b, rest);
  }

  lemma QueueSymbolsFrontTwo(q: seq<(Tree, int)>, a: seq<Byte>, b: seq<Byte>, rest: seq<Byte>)
    requires |q| >= 2 && a == LeafSymbols(q[0].0) && b == LeafSymbols(q[1].0) && rest == QueueSymbols(q[2..])
    ensures multiset(QueueSymbols(q)) == multiset(a) + multiset(b) + multiset(rest)
  {
    assert q[1..][1..] == q[2..];
    assert QueueSymbols(q) == a + (b + rest);
  }

  lemma {:induction false} MergeAllFacts(q: seq<(Tree, int)>)
    requires SortedByPriority(q) && WellFormedQueue(q)
    ensures WellFormedQueue(MergeAll(q))
    ensures Congruent32(SumValues(MergeAll(q)), SumValues(q))
    ensures multiset(QueueSymbols(MergeAll(q))) == multiset(QueueSymbols(q))
    decreases |q|
  {
    if |q| > 1 {
      MergeStepFacts(q);
      MergeStepSymbols(q);
      MergeAllFacts(MergeStep(q));
      CongruentTrans(SumValues(MergeAll(q)), SumValues(MergeStep(q)), SumValues(q));
    }
  }

  /**
   * The tree BuildHuffmanTree returns for a non-empty table: its leaves are
   * exactly the table's bytes, every internal node carries the unchecked
   * sum of its children's frequencies, and the root's frequency is the
   * table's total up to int wrap-around (exactly the total when that fits
   * in an int, as it does for a table counted from a file).
   */
  lemma HuffmanTreeShape(freq: seq<(Byte, int)>)
    requires freq != []
    ensures var root := HuffmanTree(freq).value;
      && multiset(LeafSymbols(root)) == multiset(Keys(freq))
      && Weighted(root)
      && Congruent32(root.frequency, SumValues(freq))
  {
    var q0 := InitialQueue(freq);
    InitialQueueWellFormed(freq);
    InitialQueueSymbols(freq);
    InitialQueueSum(freq);
    MergeAllFacts(q0);
    var q := MergeAll(q0);
    assert QueueSymbols(q) == LeafSymbols(q[0].0) + QueueSymbols(q[1..]);
    assert SumValues(q) == q[0].1 + SumValues(q[1..]);
  }

  /** When the table's total fits in an int, no sum wraps at the root: it weighs exactly that total. */
  lemma HuffmanRootWeight(freq: seq<(Byte, int)>)
    requires freq != [] && IsInt32(SumValues(freq))
    ensures HuffmanTree(freq).value.frequency == SumValues(freq)
  {
    var root := HuffmanTree(freq).value;
    HuffmanTreeShape(freq);
    HuffmanRootKind(freq);
    if root.Node? {
      CongruentInt32(root.frequency, SumValues(freq));
    } else {
      assert freq[1..] == [];
    }
  }

  /** A table of two or more bytes gives an internal root; a one-byte table gives a lone leaf. */
  lemma HuffmanRootKind(freq: seq<(Byte, int)>)
    requires freq != []
    ensures |freq| >= 2 ==> HuffmanTree(freq).value.Node?
    ensures |freq| == 1 ==> HuffmanTree(freq).value == Leaf(freq[0].0, freq[0].1)
  {
    HuffmanTreeShape(freq);
    var root := HuffmanTree(freq).value;
    assert |multiset(LeafSymbols(root))| == |multiset(Keys(freq))|;
    if |freq| == 1 {
      assert freq[..0] == [];
    }
  }

  /** Distinct table bytes give a tree whose leaves carry distinct bytes. */
  lemma HuffmanLeavesDistinct(freq: seq<(Byte, int)>)
    requires freq != [] && NoDuplicates(Keys(freq))
    ensures NoDuplicates(LeafSymbols(HuffmanTree(freq).value))
  {
    HuffmanTreeShape(freq);
    NoDuplicatesPermutation(Keys(freq), LeafSymbols(HuffmanTree(freq).value));
  }

  /*
   * BuildEncodingTable / BuildTableRecursive.
   */

  /**
   * The code of every leaf below `t`, reached from a node whose code is
   * `code`: '0' for a left branch, '1' for a right one. A leaf reached by
   * the empty code (a lone-leaf root) is given "0".
   */
  function CodeTable(t: Tree, code: string): (table: map<Byte, string>)
    ensures table.Keys == set s | s in LeafSymbols(t)
  {
    match t
    case Leaf(s, _) => map[s := if |code| > 0 then code else "0"]
    case Node(l, r, _) => CodeTable(l, code + "0") + CodeTable(r, code + "1")
  }

  /** Every code extends the code of the node it starts from and is not empty. */
  lemma {:induction false} CodeTablePrefixes(t: Tree, code: string, s: Byte)
    requires s in CodeTable(t, code)
    ensures |CodeTable(t, code)[s]| > 0 && IsPrefix(code, CodeTable(t, code)[s])
    ensures t.Node? ==> |CodeTable(t, code)[s]| > |code|
  {
    match t
    case Leaf(_, _) =>
    case Node(l, r, _) =>
      var c := CodeTable(t, code)[s];
      if s in CodeTable(r, code + "1") {
        CodeTablePrefixes(r, code + "1", s);
        assert c == CodeTable(r, code + "1")[s];
        assert c[..|code|] == c[..|code| + 1][..|code|];
      } else {
        CodeTablePrefixes(l, code + "0", s);
        assert c == CodeTable(l, code + "0")[s];
        assert c[..|code|] == c[..|code| + 1][..|code|];
      }
  }

  /** Codes grown from a bit string are bit strings. */
  lemma {:induction false} CodeTableBits(t: Tree, code: string, s: Byte)
    requires s in CodeTable(t, code) && IsBits(code)
    ensures IsBits(CodeTable(t, code)[s])
  {
    match t
    case Leaf(_, _) =>
    case Node(l, r, _) =>
      if s in CodeTable(r, code + "1") {
        CodeTableBits(r, code + "1", s);
      } else {
        CodeTableBits(l, code + "0", s);
      }
  }

  /** BuildTableRecursive: adds the codes of the leaves below `node` to `table`. */
  method BuildTableRecursive(node: Tree, code: string, table: map<Byte, string>) returns (result: map<Byte, string>)
    ensures result == table + CodeTable(node, code)
    decreases node
  {
    if node.Leaf? {
      result := table[node.symbol := if |code| > 0 then code else "0"];
      return;
    }
    result := BuildTableRecursive(node.left, code + "0", table);
    result := BuildTableRecursive(node.right, code + "1", result);
    UnionAssociates(table, CodeTable(node.left, code + "0"), CodeTable(node.right, code + "1"));
  }

  lemma UnionAssociates(a: map<Byte, string>, b: map<Byte, string>, c: map<Byte, string>)
    ensures (a + b) + c == a + (b + c)
  {
  }

  /** BuildEncodingTable: the codes of all leaves, starting from the empty code at the root. */
  method BuildEncodingTable(root: Tree) returns (table: map<Byte, string>)
    ensures table == CodeTable(root, "")
  {
    table := BuildTableRecursive(root, "", map[]);
  }

  /** The decoder's step: '0' follows Left, any other character Right; a leaf has neither. */
  function Child(t: Tree, bit: char): (next: Option<Tree>)
    ensures next.Some? <==> t.Node?
  {
    match t
    case Leaf(_, _) => None
    case Node(l, r, _) => Some(if bit == '0' then l else r)
  }

  /** The byte at the leaf that `path` leads to from `t`, if it ends at a leaf. */
  function LeafAt(t: Tree, path: string): Option<Byte> {
    if path == [] then (if t.Leaf? then Some(t.symbol) else None)
    else
      match Child(t, path[0])
      case None => None
      case Some(c) => LeafAt(c, path[1..])
  }

  /** Every code of the table is the path to the leaf holding its byte. */
  lemma {:induction false} CodeIsPath(t: Tree, code: string, s: Byte)
    requires s in CodeTable(t, code)
    requires t.Node? || |code| > 0
    ensures |code| <= |CodeTable(t, code)[s]| && LeafAt(t, CodeTable(t, code)[s][|code|..]) == Some(s)
  {
    var c := CodeTable(t, code)[s];
    CodeTablePrefixes(t, code, s);
    match t
    case Leaf(_, _) =>
      assert c[|code|..] == [];
    case Node(l, r, _) =>
      if s in CodeTable(r, code + "1") {
        CodeIsPath(r, code + "1", s);
        CodeTablePrefixes(r, code + "1", s);
        assert c[|code|..][1..] == c[|code| + 1..];
        assert c[|code|] == (code + "1")[|code|];
      } else {
        CodeIsPath(l, code + "0", s);
        CodeTablePrefixes(l, code + "0", s);
        assert c[|code|..][1..] == c[|code| + 1..];
        assert c[|code|] == (code + "0")[|code|];
      }
  }

  /** Codes that part at the bit after `code` are not prefixes of each other. */
  lemma Diverge(code: string, u: string, v: string)
    requires IsPrefix(code + "0", u) && IsPrefix(code + "1", v)
    ensures !IsPrefix(u, v) && !IsPrefix(v, u)
  {
    var n := |code|;
    assert u[n] == u[..n + 1][n] == '0';
    assert v[n] == v[..n + 1][n] == '1';
  }

  /** A tree whose leaves carry distinct bytes gives a prefix-free code table. */
  lemma {:induction false} CodeTablePrefixFree(t: Tree, code: string)
    requires NoDuplicates(LeafSymbols(t))
    ensures PrefixFree(CodeTable(t, code))
  {
    match t
    case Leaf(_, _) =>
    case Node(l, r, _) =>
      NoDuplicatesSplit(LeafSymbols(l), LeafSymbols(r));
      CodeTablePrefixFree(l, code + "0");
      CodeTablePrefixFree(r, code + "1");
      var left, right := CodeTable(l, code + "0"), CodeTable(r, code + "1");
      var table := CodeTable(t, code);
      forall a, b | a in table && b in table && a != b
        ensures !IsPrefix(table[a], table[b])
      {
        if a in right && b !in right {
          CodeTablePrefixes(r, code + "1", a);
          CodeTablePrefixes(l, code + "0", b);
          Diverge(code, table[b], table[a]);
        } else if a !in right && b in right {
          CodeTablePrefixes(l, code + "0", a);
          CodeTablePrefixes(r, code + "1", b);
          Diverge(code, table[a], table[b]);
        }
      }
  }

  /*
   * DecodeData.
   */

  /**
   * The DecodeData loop from tree node `current`, with `out` written so far:
   * each bit steps to a child; a missing child is an invalid bit sequence;
   * reaching a leaf writes its byte and restarts at the root, and stops the
   * loop once `size` bytes are written. The written count must equal `size`.
   */
  function DecodeBits(bits: string, root: Tree, current: Tree, out: seq<Byte>, size: int): (r: Result<seq<Byte>>)
    ensures r.Ok? ==> |r.value| == size && out <= r.value
    decreases |bits|
  {
    if bits == [] then
      if |out| == size then Ok(out) else Err(SizeMismatch(size, |out|))
    else
      match Child(current, bits[0])
      case None => Err(InvalidBitSequence)
      case Some(next) =>
        if next.Leaf? then
          var written := out + [next.symbol];
          if |written| >= size then
            if |written| == size then Ok(written) else Err(SizeMismatch(size, |written|))
          else DecodeBits(bits[1..], root, root, written, size)
        else DecodeBits(bits[1..], root, next, out, size)
  }

  /** DecodeData: the bytes decoded from the payload, or the exception it throws. */
  method DecodeData(compressedData: seq<Byte>, root: Tree, originalSize: int) returns (r: Result<seq<Byte>>)
    ensures r == DecodeBits(Unpack(compressedData), root, root, [], originalSize)
  {
    var bitString := Unpack(compressedData);
    var current := root;
    var output: seq<Byte> := [];
    var i := 0;
    while i < |bitString|
      invariant 0 <= i <= |bitString|
      invariant DecodeBits(bitString[i..], root, current, output, originalSize)
             == DecodeBits(bitString, root, root, [], originalSize)
    {
      assert bitString[i..][1..] == bitString[i + 1..];
      var next := Child(current, bitString[i]);
      if next.None? {
        return Err(InvalidBitSequence);
      }
      current := next.value;
      if current.Leaf? {
        output := output + [current.symbol];
        current := root;
        if |output| >= originalSize {
          break;
        }
      }
      i := i + 1;
    }
    if |output| != originalSize {
      return Err(SizeMismatch(originalSize, |output|));
    }
    return Ok(output);
  }

  /** Below an internal root no bit sequence is invalid: every node has both children. */
  lemma {:induction false} NodeRootNeverInvalid(bits: string, root: Tree, current: Tree, out: seq<Byte>, size: int)
    requires root.Node? && current.Node?
    ensures DecodeBits(bits, root, current, out, size) != Err(InvalidBitSequence)
    decreases |bits|
  {
    if bits != [] {
      var next := Child(current, bits[0]).value;
      if next.Leaf? {
        if |out| + 1 < size {
          NodeRootNeverInvalid(bits[1..], root, root, out + [next.symbol], size);
        }
      } else {
        NodeRootNeverInvalid(bits[1..], root, next, out, size);
      }
    }
  }

  /** Following a path from `current` to the leaf of `s` writes `s` and returns to the root. */
  lemma {:induction false} DecodePath(path: string, rest: string, root: Tree, current: Tree, out: seq<Byte>, size: int, s: Byte)
    requires current.Node? && LeafAt(current, path) == Some(s)
    ensures DecodeBits(path + rest, root, current, out, size)
         == if |out| + 1 >= size then
              (if |out| + 1 == size then Ok(out + [s]) else Err(SizeMismatch(size, |out| + 1)))
            else DecodeBits(rest, root, root, out + [s], size)
    decreases |path|
  {
    var next := Child(current, path[0]).value;
    assert (path + rest)[1..] == path[1..] + rest;
    if next.Leaf? {
      assert path[1..] + rest == rest;
    } else {
      DecodePath(path[1..], rest, root, next, out, size, s);
    }
  }

  /** Decoding the concatenated codes of `x`, followed by anything, gives back `x`. */
  lemma {:induction false} DecodeEncoded(x: seq<Byte>, table: map<Byte, string>, tail: string, root: Tree,
                                         out: seq<Byte>, size: int)
    requires root.Node? && x != [] && Covers(table, x) && size == |out| + |x|
    requires forall s :: s in table ==> LeafAt(root, table[s]) == Some(s)
    ensures DecodeBits(Encode(x, table) + tail, root, root, out, size) == Ok(out + x)
    decreases |x|
  {
    var rest := Encode(x[1..], table) + tail;
    assert Encode(x, table) + tail == table[x[0]] + rest;
    DecodePath(table[x[0]], rest, root, root, out, size, x[0]);
    if |x| > 1 {
      DecodeEncoded(x[1..], table, tail, root, out + [x[0]], size);
      AppendFirstThenRest(out, x);
    } else {
      assert out + [x[0]] == out + x;
    }
  }

  /** An input of two or more distinct bytes gives a table of two or more entries. */
  lemma TwoDistinctBytes(x: seq<Byte>, i: nat)
    requires i < |x| && x[i] != x[0]
    ensures |FrequencyTable(x)| >= 2
  {
    var ks := Keys(FrequencyTable(x));
    assert x[0] in x && x[i] in x;
    assert x[0] in ks && x[i] in ks;
  }

  /**
   * Round trip of EncodeData / PackBits / DecodeData for an input holding
   * at least two distinct bytes: the tree has an internal root, the table
   * covers the input, and decoding the packed bits gives the input back.
   */
  lemma HuffmanRoundTrip(x: seq<Byte>, i: nat)
    requires i < |x| && x[i] != x[0]
    ensures HuffmanTree(FrequencyTable(x)).Ok?
    ensures var root := HuffmanTree(FrequencyTable(x)).value;
      && root.Node?
      && Covers(CodeTable(root, ""), x)
      && IsBits(Encode(x, CodeTable(root, "")))
      && DecodeBits(Unpack(Pack(Encode(x, CodeTable(root, "")))), root, root, [], |x|) == Ok(x)
  {
    var freq := FrequencyTable(x);
    TwoDistinctBytes(x, i);
    HuffmanRootKind(freq);
    TableCovers(x);
    RoundTripBelow(x, HuffmanTree(freq).value);
  }

  /** Any tree with an internal root decodes the packed codes of an input its table covers. */
  lemma RoundTripBelow(x: seq<Byte>, root: Tree)
    requires x != [] && root.Node? && Covers(CodeTable(root, ""), x)
    ensures IsBits(Encode(x, CodeTable(root, "")))
    ensures DecodeBits(Unpack(Pack(Encode(x, CodeTable(root, "")))), root, root, [], |x|) == Ok(x)
  {
    var table := CodeTable(root, "");
    TablePaths(root);
    var bits := Encode(x, table);
    var u := Unpack(Pack(bits));
    assert u == bits + Zeros(|u| - |bits|) by {
      UnpackPack(bits);
    }
    DecodeEncoded(x, table, Zeros(|u| - |bits|), root, [], |x|);
    assert [] + x == x;
  }

  /** From an internal root, every code of the table is a bit string leading to its byte. */
  lemma TablePaths(root: Tree)
    requires root.Node?
    ensures forall s :: s in CodeTable(root, "") ==>
      IsBits(CodeTable(root, "")[s]) && LeafAt(root, CodeTable(root, "")[s]) == Some(s)
  {
    forall s | s in CodeTable(root, "")
      ensures IsBits(CodeTable(root, "")[s]) && LeafAt(root, CodeTable(root, "")[s]) == Some(s)
    {
      CodeTableBits(root, "", s);
      CodeIsPath(root, "", s);
      assert CodeTable(root, "")[s][0..] == CodeTable(root, "")[s];
    }
  }

  /** The table built from an input's own frequencies has a code for every byte of it. */
  lemma TableCovers(x: seq<Byte>)
    requires x != []
    ensures Covers(CodeTable(HuffmanTree(FrequencyTable(x)).value, ""), x)
  {
    var freq := FrequencyTable(x);
    var root := HuffmanTree(freq).value;
    assert multiset(LeafSymbols(root)) == multiset(Keys(freq)) by {
      HuffmanTreeShape(freq);
    }
    forall k | 0 <= k < |x| ensures x[k] in CodeTable(root, "") {
      LeafOfTable(x, k, freq, LeafSymbols(root));
    }
  }

  /** The table built from an input's own frequencies encodes it into a bit string. */
  lemma TableEncodes(x: seq<Byte>)
    requires x != []
    ensures HuffmanTree(FrequencyTable(x)).Ok?
    ensures var table := CodeTable(HuffmanTree(FrequencyTable(x)).value, "");
      Covers(table, x) && IsBits(Encode(x, table))
  {
    var table := CodeTable(HuffmanTree(FrequencyTable(x)).value, "");
    TableCovers(x);
    forall s | s in table ensures IsBits(table[s]) {
      CodeTableBits(HuffmanTree(FrequencyTable(x)).value, "", s);
    }
  }

  /** A byte of the input is a leaf of any tree whose leaves permute the table's bytes. */
  lemma LeafOfTable(x: seq<Byte>, k: nat, freq: seq<(Byte, int)>, leaves: seq<Byte>)
    requires k < |x| && freq == FrequencyTable(x)
    requires multiset(leaves) == multiset(Keys(freq))
    ensures x[k] in leaves
  {
    assert x[k] in x;
    assert x[k] in Keys(freq);
    assert x[k] in multiset(leaves);
  }

  /*
   * A file made of one repeated byte. Its tree is a lone leaf, which
   * BuildTableRecursive gives the code "0"; DecodeData as written then asks
   * that leaf for a child on the first bit and throws. The corrected decoder
   * below lets a lone-leaf root stand for its byte on every bit.
   */

  /** A non-empty input in which every byte is the same. */
  predicate SingleByte(x: seq<Byte>) {
    x != [] && forall i :: 0 <= i < |x| ==> x[i] == x[0]
  }

  /** The frequency table of such an input has one entry, counting every byte. */
  lemma SingleByteTable(x: seq<Byte>)
    requires SingleByte(x)
    ensures FrequencyTable(x) == [(x[0], |x|)]
  {
    var freq := FrequencyTable(x);
    assert x[0] in x;
    assert x[0] in Keys(freq);
    forall k | 0 <= k < |freq| ensures freq[k].0 == x[0] {
      assert Keys(freq)[k] in Keys(freq);
    }
    assert |freq| == 1;
    assert SumValues(freq) == freq[0].1 + SumValues(freq[1..]);
  }

  /** The tree of such an input is a lone leaf carrying the input's length. */
  lemma LoneLeafTree(x: seq<Byte>)
    requires SingleByte(x)
    ensures HuffmanTree(FrequencyTable(x)) == Ok(Leaf(x[0], |x|))
  {
    var freq := FrequencyTable(x);
    SingleByteTable(x);
    HuffmanRootKind(freq);
  }

  /** The decoder fails on the first bit it reads while standing on a leaf. */
  lemma LeafRejects(bits: string, root: Tree, current: Tree, out: seq<Byte>, size: int)
    requires bits != [] && current.Leaf?
    ensures DecodeBits(bits, root, current, out, size) == Err(InvalidBitSequence)
  {
  }

  /**
   * Compressing a one-byte input builds a lone leaf with the code "0", so
   * the payload is one '0' bit per byte, and DecodeData rejects it.
   */
  lemma LoneLeafDecodeFails(x: seq<Byte>)
    requires SingleByte(x)
    ensures HuffmanTree(FrequencyTable(x)) == Ok(Leaf(x[0], |x|))
    ensures CodeTable(Leaf(x[0], |x|), "") == map[x[0] := "0"]
    ensures Encode(x, map[x[0] := "0"]) == Zeros(|x|)
    ensures DecodeBits(Unpack(Pack(Zeros(|x|))), Leaf(x[0], |x|), Leaf(x[0], |x|), [], |x|)
         == Err(InvalidBitSequence)
  {
    LoneLeafTree(x);
    LeafTable(x[0], |x|);
    LoneLeafCode(x);
    LeafRejectsZeros(|x|, Leaf(x[0], |x|));
  }

  /** A lone leaf is given the code "0". */
  lemma LeafTable(s: Byte, f: int)
    ensures CodeTable(Leaf(s, f), "") == map[s := "0"]
  {
  }

  /** A lone-leaf root rejects the packed payload of `n` zero bits. */
  lemma LeafRejectsZeros(n: nat, leaf: Tree)
    requires n >= 1 && leaf.Leaf?
    ensures DecodeBits(Unpack(Pack(Zeros(n))), leaf, leaf, [], n) == Err(InvalidBitSequence)
  {
    var bits := Zeros(n);
    assert Unpack(Pack(bits)) != [] by {
      UnpackPack(bits);
    }
    LeafRejects(Unpack(Pack(bits)), leaf, leaf, [], n);
  }

  /**
   * The corrected loop for a lone-leaf root: each bit writes the root's
   * byte, and the loop stops once `size` bytes are written.
   */
  function LoneLeafBits(bits: string, symbol: Byte, out: seq<Byte>, size: int): (r: Result<seq<Byte>>)
    ensures r.Ok? ==> |r.value| == size && out <= r.value
    decreases |bits|
  {
    if bits == [] then
      if |out| == size then Ok(out) else Err(SizeMismatch(size, |out|))
    else
      var written := out + [symbol];
      if |written| >= size then
        if |written| == size then Ok(written) else Err(SizeMismatch(size, |written|))
      else LoneLeafBits(bits[1..], symbol, written, size)
  }

  /** DecodeData with the lone-leaf root handled; an internal root decodes exactly as written. */
  function DecodeFixed(bits: string, root: Tree, size: int): (r: Result<seq<Byte>>)
    ensures r.Ok? ==> |r.value| == size
  {
    if root.Leaf? then LoneLeafBits(bits, root.symbol, [], size)
    else DecodeBits(bits, root, root, [], size)
  }

  /** The corrected DecodeData. */
  method DecodePayload(compressedData: seq<Byte>, root: Tree, originalSize: int) returns (r: Result<seq<Byte>>)
    ensures r == DecodeFixed(Unpack(compressedData), root, originalSize)
  {
    if root.Node? {
      r := DecodeData(compressedData, root, originalSize);
      return;
    }
    var bitString := Unpack(compressedData);
    var output: seq<Byte> := [];
    var i := 0;
    while i < |bitString|
      invariant 0 <= i <= |bitString|
      invariant LoneLeafBits(bitString[i..], root.symbol, output, originalSize)
             == LoneLeafBits(bitString, root.symbol, [], originalSize)
    {
      assert bitString[i..][1..] == bitString[i + 1..];
      output := output + [root.symbol];
      if |output| >= originalSize {
        break;
      }
      i := i + 1;
    }
    if |output| != originalSize {
      return Err(SizeMismatch(originalSize, |output|));
    }
    return Ok(output);
  }

  /** With at least `|x|` bits, the lone-leaf loop writes `x` when every byte of `x` is the leaf's. */
  lemma {:induction false} LoneLeafWrites(bits: string, x: seq<Byte>, out: seq<Byte>, size: int)
    requires SingleByte(x) && |x| <= |bits| && size == |out| + |x|
    ensures LoneLeafBits(bits, x[0], out, size) == Ok(out + x)
    decreases |x|
  {
    if |x| > 1 {
      LoneLeafWrites(bits[1..], x[1..], out + [x[0]], size);
      AppendFirstThenRest(out, x);
    } else {
      assert out + [x[0]] == out + x;
    }
  }

  /**
   * Round trip of the corrected decoder for every non-empty input: the
   * packed codes of the input decode to the input, one-byte inputs included.
   */
  lemma HuffmanRoundTripFixed(x: seq<Byte>)
    requires x != []
    ensures HuffmanTree(FrequencyTable(x)).Ok?
    ensures var root := HuffmanTree(FrequencyTable(x)).value;
      && Covers(CodeTable(root, ""), x)
      && IsBits(Encode(x, CodeTable(root, "")))
      && DecodeFixed(Unpack(Pack(Encode(x, CodeTable(root, "")))), root, |x|) == Ok(x)
  {
    if i :| 0 <= i < |x| && x[i] != x[0] {
      HuffmanRoundTrip(x, i);
    } else {
      LoneLeafDecodeFails(x);
      LoneLeafRoundTrip(x);
      assert Zeros(|x|) == Encode(x, CodeTable(HuffmanTree(FrequencyTable(x)).value, ""));
    }
  }

  /** The corrected decoder gives back a one-byte input. */
  lemma LoneLeafRoundTrip(x: seq<Byte>)
    requires SingleByte(x)
    ensures DecodeFixed(Unpack(Pack(Zeros(|x|))), Leaf(x[0], |x|), |x|) == Ok(x)
  {
    var bits := Zeros(|x|);
    var u := Unpack(Pack(bits));
    assert |u| >= |x| by {
      UnpackPack(bits);
    }
    LoneLeafWrites(u, x, [], |x|);
    assert [] + x == x;
  }

  /** A one-byte input encodes to one '0' bit per byte. */
  lemma {:induction false} LoneLeafCode(x: seq<Byte>)
    requires SingleByte(x)
    ensures Encode(x, map[x[0] := "0"]) == Zeros(|x|)
    decreases |x|
  {
    if |x| > 1 {
      assert SingleByte(x[1..]) && x[1..][0] == x[0];
      LoneLeafCode(x[1..]);
      assert "0" + Zeros(|x| - 1) == Zeros(|x|);
    } else {
      assert Zeros(1) == Zeros(0) + "0";
    }
  }
}
