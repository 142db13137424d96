/*
 * PriorityQueue<T> of Form1.cs: a list of (item, priority) pairs kept
 * sorted by ascending priority. Enqueue appends and re-sorts; Dequeue
 * removes index 0 and throws on an empty queue.
 */
module PriorityQueues {
  import opened Common

  predicate SortedByPriority<T>(q: seq<(T, int)>) {
    forall i, j :: 0 <= i < j < |q| ==> q[i].1 <= q[j].1
  }

  /**
   * Where the re-sort puts a new item of priority `p`: after every queued
   * item of priority at most `p`, before every item of larger priority.
   */
  function InsertionPoint<T>(q: seq<(T, int)>, p: int): (k: nat)
    ensures k <= |q|
    ensures forall i :: k <= i < |q| ==> q[i].1 > p
    ensures SortedByPriority(q) ==> forall i :: 0 <= i < k ==> q[i].1 <= p
  {
    if q == [] || q[|q| - 1].1 <= p then |q| else InsertionPoint(q[..|q| - 1], p)
  }

  /** The insertion point is the index where the items of larger priority begin. */
  lemma {:induction false} InsertionPointAt<T>(q: seq<(T, int)>, p: int, i: nat)
    requires i <= |q|
    requires i == 0 || q[i - 1].1 <= p
    requires forall j :: i <= j < |q| ==> q[j].1 > p
    ensures InsertionPoint(q, p) == i
  {
    if i < |q| {
      InsertionPointAt(q[..|q| - 1], p, i);
    }
  }

  /** The list after `heap.Add(x); heap.Sort(by priority)` on a sorted list. */
  function InsertByPriority<T(==)>(q: seq<(T, int)>, x: (T, int)): (r: seq<(T, int)>)
    ensures |r| == |q| + 1
  {
    var k := InsertionPoint(q, x.1);
    q[..k] + [x] + q[k..]
  }

  /** Enqueue neither loses nor duplicates an item. */
  lemma InsertPermutes<T>(q: seq<(T, int)>, x: (T, int))
    ensures multiset(InsertByPriority(q, x)) == multiset(q) + multiset{x}
  {
    var k := InsertionPoint(q, x.1);
    assert q == q[..k] + q[k..];
  }

  /** Enqueue keeps the list sorted by priority. */
  lemma InsertKeepsOrder<T>(q: seq<(T, int)>, x: (T, int))
    requires SortedByPriority(q)
    ensures SortedByPriority(InsertByPriority(q, x))
  {
    var k := InsertionPoint(q, x.1);
    var r := InsertByPriority(q, x);
    assert r == q[..k] + [x] + q[k..];
    forall i, j | 0 <= i < j < |r|
      ensures r[i].1 <= r[j].1
    {
      if j < k {
        assert r[i] == q[i] && r[j] == q[j];
      } else if i > k {
        assert r[i] == q[i - 1] && r[j] == q[j - 1];
      } else if i == k {
        assert r[j] == q[j - 1];
      } else if j == k {
        assert r[i] == q[i];
      } else {
        assert r[i] == q[i] && r[j] == q[j - 1];
      }
    }
  }

  class PriorityQueue<T(==)> {
    var heap: seq<(T, int)>

    ghost predicate Valid()
      reads this
    {
      SortedByPriority(heap)
    }

    constructor ()
      ensures Valid() && heap == []
    {
      heap := [];
    }

    function Count(): (n: nat)
      reads this
      ensures n == |heap|
    {
      |heap|
    }

    /** Appends the pair and restores the order by moving it left past larger priorities. */
    method Enqueue(item: T, priority: int)
      requires Valid()
      modifies this
      ensures Valid()
      ensures heap == InsertByPriority(old(heap), (item, priority))
    {
      var h := heap + [(item, priority)];
      var i := |h| - 1;
      while i > 0 && h[i - 1].1 > priority
        invariant 0 <= i <= |heap|
        invariant h == heap[..i] + [(item, priority)] + heap[i..]
        invariant forall j :: i <= j < |heap| ==> heap[j].1 > priority
      {
        h := h[..i - 1] + [h[i], h[i - 1]] + h[i + 1..];
        i := i - 1;
      }
      assert i > 0 ==> h[i - 1] == heap[i - 1];
      InsertionPointAt(heap, priority, i);
      InsertKeepsOrder(heap, (item, priority));
      heap := h;
    }

    /** Removes and returns the item at index 0, an item of least priority. */
    method Dequeue() returns (r: Result<T>)
      requires Valid()
      modifies this
      ensures Valid()
      ensures old(heap) == [] ==> r == Err(QueueEmpty) && heap == old(heap)
      ensures old(heap) != [] ==> r == Ok(old(heap)[0].0) && heap == old(heap)[1..]
      ensures r.Ok? ==> forall j :: 0 <= j < |old(heap)| ==> old(heap)[0].1 <= old(heap)[j].1
    {
      if |heap| == 0 {
        return Err(QueueEmpty);
      }
      var item := heap[0];
      heap := heap[1..];
      return Ok(item.0);
    }
  }
}
