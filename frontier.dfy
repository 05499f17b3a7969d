/**
 * The A* frontier: a flat array of [fCost, cell] entries.  heappush appends;
 * heappop scans for the smallest fCost and splices that entry out.  Because
 * the scan replaces its candidate only on a strictly smaller fCost, ties go
 * to the entry that was pushed first.
 */
module Frontier {
  import opened Grid

  /** A frontier entry: estimated total cost and the cell it is for. */
  datatype Entry = Entry(f: int, cell: Cell)

  /** The position heappop removes: the first entry holding the smallest f. */
  function MinIndex(heap: seq<Entry>): (k: nat)
    requires |heap| > 0
    ensures k < |heap|
    ensures forall i :: 0 <= i < |heap| ==> heap[k].f <= heap[i].f
    ensures forall i :: 0 <= i < k ==> heap[k].f < heap[i].f
  {
    if |heap| == 1 then 0
    else
      var k := MinIndex(heap[..|heap| - 1]);
      if heap[|heap| - 1].f < heap[k].f then |heap| - 1 else k
  }

  /** s with the element at position k spliced out, as splice(k, 1) leaves it. */
  function RemoveAt<T>(s: seq<T>, k: nat): (r: seq<T>)
    requires k < |s|
    ensures |r| == |s| - 1
    ensures forall i {:trigger r[i]} :: 0 <= i < k ==> r[i] == s[i]
    ensures forall i {:trigger r[i]} :: k <= i < |r| ==> r[i] == s[i + 1]
  {
    s[..k] + s[k + 1..]
  }

  /**
   * heappop: a linear scan from index 1 that keeps the first minimum, then a
   * splice.  Exactly one entry leaves, it has the smallest f and is the
   * earliest such entry, and the others keep their relative order.
   */
  method HeapPop(heap: seq<Entry>) returns (e: Entry, rest: seq<Entry>)
    requires |heap| > 0
    ensures e == heap[MinIndex(heap)]
    ensures rest == RemoveAt(heap, MinIndex(heap))
    ensures forall i :: 0 <= i < |heap| ==> e.f <= heap[i].f
    ensures multiset(rest) + multiset{e} == multiset(heap)
  {
    var best := 0;
    for i := 1 to |heap|
      invariant best == MinIndex(heap[..i])
    {
      assert heap[..i + 1][..i] == heap[..i];
      if heap[i].f < heap[best].f {
        best := i;
      }
    }
    assert heap[..|heap|] == heap;
    e := heap[best];
    rest := heap[..best] + heap[best + 1..];
    assert heap == heap[..best] + [e] + heap[best + 1..];
  }

  /** heappush: the new entry goes to the end; the others are left in place. */
  function HeapPush(heap: seq<Entry>, e: Entry): (r: seq<Entry>)
    ensures |r| == |heap| + 1 && r[..|heap|] == heap && r[|heap|] == e
  {
    heap + [e]
  }

  /**
   * Insertion order breaks ties: a pushed entry is the next one popped
   * exactly when its f is strictly below every entry already present.
   */
  lemma PushedIsPoppedIff(heap: seq<Entry>, e: Entry)
    requires |heap| > 0
    ensures MinIndex(HeapPush(heap, e)) == |heap| <==> forall i :: 0 <= i < |heap| ==> e.f < heap[i].f
  {
    var r := HeapPush(heap, e);
    if !forall i :: 0 <= i < |heap| ==> e.f < heap[i].f {
      var i :| 0 <= i < |heap| && heap[i].f <= e.f;
      assert r[i] == heap[i];
    }
  }

  /** Splicing out one entry keeps every other entry that was present. */
  lemma RemoveKeepsOthers(heap: seq<Entry>, k: nat, x: Entry)
    requires k < |heap| && x in heap && x != heap[k]
    ensures x in RemoveAt(heap, k)
  {
    var i :| 0 <= i < |heap| && heap[i] == x;
    var r := RemoveAt(heap, k);
    if i < k {
      assert r[i] == x;
    } else {
      assert r[i - 1] == x;
    }
  }
}
