/** The list operations of Python's `heapq` module that the dictionary uses,
    `heappush` and `heappop`, on a list of `(expiry_time, key)` pairs.
    Both follow CPython's algorithm step for step: `heappush` appends and moves the
    new item towards the root (`_siftdown`); `heappop` moves the last item to the
    root, walks the hole down along the smaller children to a leaf and then moves
    the item back up (`_siftup`). CPython moves a "hole" instead of swapping; the
    swaps written here leave the list in the same final state. */
module Heapq {
  import opened Entries

  /** The pair at position `i` is no smaller than its parent. */
  ghost predicate ParentLe(h: seq<Entry>, i: nat)
    requires 0 < i < |h|
  {
    Le(h[(i - 1) / 2], h[i])
  }

  /** Heap order: no pair is smaller than its parent. */
  ghost predicate IsHeap(h: seq<Entry>) {
    forall i :: 0 < i < |h| ==> ParentLe(h, i)
  }

  /** Heap order everywhere except on the edge from `pos` to its parent, while
      the parent of `pos` is still no larger than the children of `pos`
      (the state `_siftdown` works in). */
  ghost predicate HeapExceptUp(h: seq<Entry>, pos: nat)
    requires pos < |h|
  {
    && (forall i :: 0 < i < |h| && i != pos ==> ParentLe(h, i))
    && (0 < pos && 2 * pos + 1 < |h| ==> Le(h[(pos - 1) / 2], h[2 * pos + 1]))
    && (0 < pos && 2 * pos + 2 < |h| ==> Le(h[(pos - 1) / 2], h[2 * pos + 2]))
  }

  /** Heap order everywhere except on the edges touching `pos`, while the parent
      of `pos` is no larger than the children of `pos` (the state of the
      descent in `_siftup`). */
  ghost predicate HoleAt(h: seq<Entry>, pos: nat)
    requires pos < |h|
  {
    && (forall i :: 0 < i < |h| && i != pos && (i - 1) / 2 != pos ==> ParentLe(h, i))
    && (0 < pos && 2 * pos + 1 < |h| ==> Le(h[(pos - 1) / 2], h[2 * pos + 1]))
    && (0 < pos && 2 * pos + 2 < |h| ==> Le(h[(pos - 1) / 2], h[2 * pos + 2]))
  }

  function Swap(h: seq<Entry>, i: nat, j: nat): (r: seq<Entry>)
    requires i < |h| && j < |h|
    ensures |r| == |h| && r[i] == h[j] && r[j] == h[i]
    ensures forall k :: 0 <= k < |h| && k != i && k != j ==> r[k] == h[k]
    ensures multiset(r) == multiset(h)
  {
    h[i := h[j]][j := h[i]]
  }

  /** `_siftdown(heap, 0, pos)`: while the item at `pos` is smaller than its
      parent, it changes places with the parent. */
  function SiftDown(h: seq<Entry>, pos: nat): (r: seq<Entry>)
    requires pos < |h|
    ensures |r| == |h| && multiset(r) == multiset(h)
    decreases pos
  {
    if 0 < pos && Less(h[pos], h[(pos - 1) / 2]) then
      SiftDown(Swap(h, pos, (pos - 1) / 2), (pos - 1) / 2)
    else
      h
  }

  /** `_siftup(heap, 0)` from the point where its descent has reached `pos`:
      the item goes down to the smaller child (the right one unless the left is
      strictly smaller) until it reaches a leaf, then `_siftdown` moves it up. */
  function SiftUp(h: seq<Entry>, pos: nat): (r: seq<Entry>)
    requires pos < |h|
    ensures |r| == |h| && multiset(r) == multiset(h)
    decreases |h| - pos
  {
    var child := 2 * pos + 1;
    if child < |h| then
      var c := if child + 1 < |h| && !Less(h[child], h[child + 1]) then child + 1 else child;
      SiftUp(Swap(h, pos, c), c)
    else
      SiftDown(h, pos)
  }

  /** `heapq.heappush(heap, item)`: the list gains exactly `item`. */
  function HeapPush(h: seq<Entry>, item: Entry): (r: seq<Entry>)
    ensures |r| == |h| + 1
    ensures multiset(r) == multiset(h) + multiset{item}
  {
    SiftDown(h + [item], |h|)
  }

  /** `heapq.heappop(heap)`: returns the FRONT pair `heap[0]` (the smallest only
      when the list is in heap order) and the list without it. */
  function HeapPop(h: seq<Entry>): (r: (Entry, seq<Entry>))
    requires h != []
    ensures r.0 == h[0]
    ensures |r.1| == |h| - 1
    ensures multiset(r.1) + multiset{r.0} == multiset(h)
  {
    var last := h[|h| - 1];
    var rest := h[..|h| - 1];
    assert h == rest + [last];
    if rest != [] then (rest[0], SiftUp(rest[0 := last], 0)) else (last, [])
  }

  lemma {:induction false} SiftDownHeap(h: seq<Entry>, pos: nat)
    requires pos < |h| && HeapExceptUp(h, pos)
    ensures IsHeap(SiftDown(h, pos))
    decreases pos
  {
    if 0 < pos && Less(h[pos], h[(pos - 1) / 2]) {
      var p := (pos - 1) / 2;
      var h' := Swap(h, pos, p);
      LessAsymmetric(h[pos], h[p]);
      forall i | 0 < i < |h'| && i != p
        ensures ParentLe(h', i)
      {
        if i == pos {
        } else if (i - 1) / 2 == pos {
          // a child of pos now hangs below the old parent, which the grandparent clause covers
          assert i == 2 * pos + 1 || i == 2 * pos + 2;
        } else if (i - 1) / 2 == p {
          // the sibling of pos: no smaller than the old parent, which the new item undercuts
          assert ParentLe(h, i);
          LeTransitive(h[pos], h[p], h[i]);
        } else {
          assert ParentLe(h, i);
        }
      }
      if 0 < p {
        var g := (p - 1) / 2;
        assert ParentLe(h, p);
        var s := if pos == 2 * p + 1 then 2 * p + 2 else 2 * p + 1;
        if s < |h| {
          assert ParentLe(h, s);
          LeTransitive(h[g], h[p], h[s]);
        }
      }
      SiftDownHeap(h', p);
    }
  }

  lemma {:induction false} SiftUpHeap(h: seq<Entry>, pos: nat)
    requires pos < |h| && HoleAt(h, pos)
    ensures IsHeap(SiftUp(h, pos))
    decreases |h| - pos
  {
    var child := 2 * pos + 1;
    if child < |h| {
      var c := if child + 1 < |h| && !Less(h[child], h[child + 1]) then child + 1 else child;
      if c == child && child + 1 < |h| {
        LessAsymmetric(h[child], h[child + 1]);
      }
      var h' := Swap(h, pos, c);
      forall i | 0 < i < |h'| && i != c && (i - 1) / 2 != c
        ensures ParentLe(h', i)
      {
        if i == pos {
        } else if (i - 1) / 2 == pos {
          // the other child of pos sits below the smaller child, now moved up
          assert i == 2 * pos + 1 || i == 2 * pos + 2;
        } else {
          assert ParentLe(h, i);
        }
      }
      if 2 * c + 1 < |h| {
        assert ParentLe(h, 2 * c + 1);
      }
      if 2 * c + 2 < |h| {
        assert ParentLe(h, 2 * c + 2);
      }
      SiftUpHeap(h', c);
    } else {
      SiftDownHeap(h, pos);
    }
  }

  /** `heappush` keeps a heap a heap. */
  lemma HeapPushKeepsHeap(h: seq<Entry>, item: Entry)
    requires IsHeap(h)
    ensures IsHeap(HeapPush(h, item))
  {
    var h' := h + [item];
    forall i | 0 < i < |h'| && i != |h|
      ensures ParentLe(h', i)
    {
      assert ParentLe(h, i);
    }
    SiftDownHeap(h', |h|);
  }

  /** `heappop` keeps a heap a heap. */
  lemma HeapPopKeepsHeap(h: seq<Entry>)
    requires h != [] && IsHeap(h)
    ensures IsHeap(HeapPop(h).1)
  {
    var rest := h[..|h| - 1];
    if rest != [] {
      var h0 := rest[0 := h[|h| - 1]];
      forall i | 0 < i < |h0| && (i - 1) / 2 != 0
        ensures ParentLe(h0, i)
      {
        assert ParentLe(h, i);
      }
      SiftUpHeap(h0, 0);
    }
  }

  /** In a heap the front pair is no larger than any other: it is the pair
      `heappop` returns and the one the sweep inspects. */
  lemma {:induction false} HeapFrontIsLeast(h: seq<Entry>, i: nat)
    requires IsHeap(h) && i < |h|
    ensures Le(h[0], h[i])
    decreases i
  {
    if i == 0 {
      LessIrreflexive(h[0]);
    } else {
      HeapFrontIsLeast(h, (i - 1) / 2);
      assert ParentLe(h, i);
      LeTransitive(h[0], h[(i - 1) / 2], h[i]);
    }
  }
}
