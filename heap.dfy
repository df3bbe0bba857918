/**
 The open list of the A* searches: a collection of `(f, g, tie, node)`
 entries from which the lexicographically least one is taken first. It is
 kept as a sequence in push order; a pop scans it for the least entry.
 */
module Heap {
  import opened Grid

  /** A heap entry: estimated total cost `f`, cost so far `g`, the push
      counter `tie`, and the cell. */
  datatype Entry = Entry(f: real, g: int, tie: int, node: Cell)

  /** Tuple order on `(f, g, tie)`: a smaller `f` first, then a smaller `g`,
      then a smaller `tie`. Entries of one search never share a `tie`, so the
      cell, the last component of the tuple, is never compared. */
  predicate EntryLe(a: Entry, b: Entry)
  {
    || a.f < b.f
    || (a.f == b.f && (a.g < b.g || (a.g == b.g && a.tie <= b.tie)))
  }

  /** `e` is the least entry of `heap`. */
  predicate IsLeast(e: Entry, heap: seq<Entry>)
  {
    e in heap && forall x :: x in heap ==> EntryLe(e, x)
  }

  /** The ties grow along the heap: entries are appended with a fresh tie. */
  predicate TiesIncreasing(heap: seq<Entry>)
  {
    forall i, j :: 0 <= i < j < |heap| ==> heap[i].tie < heap[j].tie
  }

  /** The index `heappop` takes: the first least entry, found by scanning the
      heap and moving only to a strictly smaller entry. Every entry is at
      least it, and every entry before it is strictly greater. */
  function FirstLeast(heap: seq<Entry>): (k: nat)
    requires |heap| > 0
    ensures k < |heap| && IsLeast(heap[k], heap)
    ensures forall j :: 0 <= j < k ==> !EntryLe(heap[j], heap[k])
  {
    if |heap| == 1 then 0
    else
      var init := heap[..|heap| - 1];
      var m := FirstLeast(init);
      assert forall j :: 0 <= j < |init| ==> heap[j] == init[j];
      assert forall x :: x in heap ==> x in init || x == heap[|heap| - 1];
      if EntryLe(heap[m], heap[|heap| - 1]) then m
      else
        assert forall j :: 0 <= j < |heap| - 1 ==> !EntryLe(heap[j], heap[|heap| - 1]) by {
          forall j | 0 <= j < |heap| - 1 ensures !EntryLe(heap[j], heap[|heap| - 1]) {
            if EntryLe(heap[j], heap[|heap| - 1]) {
              EntryLeTransitive(heap[m], heap[j], heap[|heap| - 1]);
            }
          }
        }
        |heap| - 1
  }

  lemma EntryLeTransitive(a: Entry, b: Entry, c: Entry)
    requires EntryLe(a, b) && EntryLe(b, c)
    ensures EntryLe(a, c)
  {
  }

  /** `heappop`: the least entry and the heap without it. */
  method HeapPop(heap: seq<Entry>) returns (e: Entry, rest: seq<Entry>, ghost k: nat)
    requires |heap| > 0
    ensures k == FirstLeast(heap) && e == heap[k] && rest == heap[..k] + heap[k + 1..]
    ensures IsLeast(e, heap)
  {
    var m := 0;
    for i := 1 to |heap|
      invariant m == FirstLeast(heap[..i])
    {
      assert heap[..i + 1][..i] == heap[..i];
      if !EntryLe(heap[m], heap[i]) {
        m := i;
      }
    }
    assert heap[..|heap|] == heap;
    e, rest, k := heap[m], heap[..m] + heap[m + 1..], m;
  }

  /** With distinct ties the least entry is unique, so the pop does not depend
      on how entries that compare equal would be ordered. */
  lemma LeastIsUnique(heap: seq<Entry>, a: Entry, b: Entry)
    requires TiesIncreasing(heap) && IsLeast(a, heap) && IsLeast(b, heap)
    ensures a == b
  {
    var i :| 0 <= i < |heap| && heap[i] == a;
    var j :| 0 <= j < |heap| && heap[j] == b;
    if i != j {
      assert false;
    }
  }

  /** Removing one entry keeps the ties increasing and keeps every other entry. */
  lemma RemoveEntry(heap: seq<Entry>, k: nat)
    requires k < |heap|
    ensures TiesIncreasing(heap) ==> TiesIncreasing(heap[..k] + heap[k + 1..])
    ensures forall x :: x in heap && x != heap[k] ==> x in heap[..k] + heap[k + 1..]
    ensures forall x :: x in heap[..k] + heap[k + 1..] ==> x in heap
  {
    var rest := heap[..k] + heap[k + 1..];
    assert forall i :: 0 <= i < |rest| ==> rest[i] == if i < k then heap[i] else heap[i + 1];
    forall x | x in heap && x != heap[k] ensures x in rest {
      var i :| 0 <= i < |heap| && heap[i] == x;
      if i < k { assert rest[i] == x; } else { assert rest[i - 1] == x; }
    }
  }

  /** Appending an entry whose tie exceeds every tie in the heap keeps the ties increasing. */
  lemma PushEntry(heap: seq<Entry>, e: Entry)
    requires TiesIncreasing(heap) && forall x :: x in heap ==> x.tie < e.tie
    ensures TiesIncreasing(heap + [e])
  {
    var h' := heap + [e];
    forall i, j | 0 <= i < j < |h'| ensures h'[i].tie < h'[j].tie {
      assert h'[i] == heap[i] && h'[i] in heap;
      if j < |heap| { assert h'[j] == heap[j]; }
    }
  }

}
