/** Literals that may start only after some more code points have passed: a priority queue on the code point at which
    they become ready, kept as a binary heap in a vector. */
module DelayQueues {

  datatype DelayedMatch = DelayedMatch(patternId: nat, nextPatternPos: nat, prevPatternPos: nat, readyCpIdx: nat)

  function Parent(i: nat): nat
    requires i > 0
  {
    (i - 1) / 2
  }

  /** No entry is ready before its parent, but for those the predicate leaves out: `i` itself. */
  ghost predicate HeapBut(h: seq<DelayedMatch>, i: nat)
  {
    forall k :: 0 < k < |h| && k != i ==> h[Parent(k)].readyCpIdx <= h[k].readyCpIdx
  }

  /** The children of `i` are not ready before the parent of `i`. */
  ghost predicate Bridged(h: seq<DelayedMatch>, i: nat)
  {
    forall k :: 0 < k < |h| && Parent(k) == i && 0 < i < |h| ==> h[Parent(i)].readyCpIdx <= h[k].readyCpIdx
  }

  ghost predicate IsHeap(h: seq<DelayedMatch>)
  {
    HeapBut(h, 0)
  }

  /** The first entry of a heap is ready first. */
  lemma {:induction false} RootFirst(h: seq<DelayedMatch>, i: nat)
    requires IsHeap(h) && i < |h|
    ensures h[0].readyCpIdx <= h[i].readyCpIdx
  {
    if i > 0 { RootFirst(h, Parent(i)); }
  }

  lemma RootEarliest(h: seq<DelayedMatch>)
    requires IsHeap(h) && h != []
    ensures h[0] in multiset(h) && forall m :: m in multiset(h) ==> h[0].readyCpIdx <= m.readyCpIdx
  {
    forall m | m in multiset(h) ensures h[0].readyCpIdx <= m.readyCpIdx {
      var i :| 0 <= i < |h| && h[i] == m;
      RootFirst(h, i);
    }
  }

  function Swapped(h: seq<DelayedMatch>, i: nat, j: nat): (g: seq<DelayedMatch>)
    requires i < |h| && j < |h|
    ensures |g| == |h| && multiset(g) == multiset(h)
  {
    h[i := h[j]][j := h[i]]
  }

  /** Changing places with the parent moves the one entry that may be out of order up. */
  lemma UpStep(h: seq<DelayedMatch>, i: nat)
    requires 0 < i < |h| && HeapBut(h, i) && Bridged(h, i) && h[i].readyCpIdx < h[Parent(i)].readyCpIdx
    ensures HeapBut(Swapped(h, i, Parent(i)), Parent(i)) && Bridged(Swapped(h, i, Parent(i)), Parent(i))
  {
    var p := Parent(i);
    var g := Swapped(h, i, p);
    forall k | 0 < k < |g| && k != p ensures g[Parent(k)].readyCpIdx <= g[k].readyCpIdx {
      if k == i {
      } else if Parent(k) == i {
        assert h[Parent(i)].readyCpIdx <= h[k].readyCpIdx;
      } else if Parent(k) == p {
        assert h[Parent(k)].readyCpIdx <= h[k].readyCpIdx;
      } else {
        assert h[Parent(k)].readyCpIdx <= h[k].readyCpIdx;
      }
    }
    if p > 0 {
      assert h[Parent(p)].readyCpIdx <= h[p].readyCpIdx;
      forall k | 0 < k < |g| && Parent(k) == p ensures g[Parent(p)].readyCpIdx <= g[k].readyCpIdx {
        if k != i { assert h[Parent(k)].readyCpIdx <= h[k].readyCpIdx; }
      }
    }
  }

  lemma UpDone(h: seq<DelayedMatch>, i: nat)
    requires i < |h| && HeapBut(h, i) && (i == 0 || h[Parent(i)].readyCpIdx <= h[i].readyCpIdx)
    ensures IsHeap(h)
  {
  }

  /** No entry is ready before its parent, but for the children of `i`. */
  ghost predicate HeapUnder(h: seq<DelayedMatch>, i: nat)
  {
    forall k :: 0 < k < |h| && Parent(k) != i ==> h[Parent(k)].readyCpIdx <= h[k].readyCpIdx
  }

  /** Changing places with the child that is ready first moves it down. */
  lemma DownStep(h: seq<DelayedMatch>, i: nat, c: nat)
    requires 0 < c < |h| && Parent(c) == i && HeapUnder(h, i) && Bridged(h, i)
    requires h[c].readyCpIdx < h[i].readyCpIdx
    requires forall k :: 0 < k < |h| && Parent(k) == i ==> h[c].readyCpIdx <= h[k].readyCpIdx
    ensures HeapUnder(Swapped(h, i, c), c) && Bridged(Swapped(h, i, c), c)
  {
    var g := Swapped(h, i, c);
    assert i < c;
    forall k | 0 < k < |g| && Parent(k) != c ensures g[Parent(k)].readyCpIdx <= g[k].readyCpIdx {
      if Parent(k) == i {
        assert h[c].readyCpIdx <= h[k].readyCpIdx;
      } else if k == i {
        assert h[Parent(i)].readyCpIdx <= h[c].readyCpIdx;
      } else {
        assert h[Parent(k)].readyCpIdx <= h[k].readyCpIdx;
      }
    }
    forall k | 0 < k < |g| && Parent(k) == c ensures g[Parent(c)].readyCpIdx <= g[k].readyCpIdx {
      assert h[Parent(k)].readyCpIdx <= h[k].readyCpIdx;
    }
  }

  lemma DownDone(h: seq<DelayedMatch>, i: nat)
    requires HeapUnder(h, i) && forall k :: 0 < k < |h| && Parent(k) == i ==> h[i].readyCpIdx <= h[k].readyCpIdx
    ensures IsHeap(h)
  {
  }

  /** At a leaf there is nothing left to do. */
  lemma LeafDone(h: seq<DelayedMatch>, i: nat)
    requires HeapUnder(h, i) && 2 * i + 1 >= |h|
    ensures IsHeap(h)
  {
    forall k | 0 < k < |h| ensures Parent(k) != i { Children(i, k); }
  }

  lemma EmptyHeap()
    ensures IsHeap([])
  {
  }

  lemma RootBridged(h: seq<DelayedMatch>)
    ensures Bridged(h, 0)
  {
  }

  lemma Children(i: nat, k: nat)
    requires k > 0
    ensures Parent(k) == i <==> k == 2 * i + 1 || k == 2 * i + 2
  {
  }

  lemma FirstChild(h: seq<DelayedMatch>, i: nat, c: nat)
    requires 2 * i + 1 <= c <= 2 * i + 2 && c < |h|
    requires h[c].readyCpIdx <= h[2 * i + 1].readyCpIdx
    requires 2 * i + 2 < |h| ==> h[c].readyCpIdx <= h[2 * i + 2].readyCpIdx
    ensures c > i && Parent(c) == i
    ensures forall k :: 0 < k < |h| && Parent(k) == i ==> h[c].readyCpIdx <= h[k].readyCpIdx
  {
    forall k | 0 < k < |h| && Parent(k) == i ensures h[c].readyCpIdx <= h[k].readyCpIdx { Children(i, k); }
  }

  /** The last entry takes the place of the first. */
  lemma LastToRoot(h: seq<DelayedMatch>)
    requires IsHeap(h) && h != []
    ensures var n := |h| - 1;
            if n == 0 then multiset(h) - multiset{h[0]} == multiset{}
            else
              var g := h[..n][0 := h[n]];
              HeapUnder(g, 0) && |g| == n && multiset(g) == multiset(h) - multiset{h[0]}
  {
    var n := |h| - 1;
    assert h == h[..n] + [h[n]];
    if n > 0 {
      var g := h[..n][0 := h[n]];
      forall k | 0 < k < |g| && Parent(k) != 0 ensures g[Parent(k)].readyCpIdx <= g[k].readyCpIdx {
        assert h[Parent(k)].readyCpIdx <= h[k].readyCpIdx;
      }
    }
  }

  /** A min-heap on `readyCpIdx`. */
  class DelayedMatchQueue {
    var heap: seq<DelayedMatch>
    ghost var queue: multiset<DelayedMatch>

    ghost predicate Valid()
      reads this
    {
      IsHeap(heap) && queue == multiset(heap)
    }

    constructor ()
      ensures Valid() && queue == multiset{}
    {
      heap, queue := [], multiset{};
    }

    method Schedule(patternId: nat, readyCpIdx: nat, nextPatternPos: nat, prevPatternPos: nat)
      requires Valid()
      modifies this
      ensures Valid()
      ensures queue == old(queue) + multiset{DelayedMatch(patternId, nextPatternPos, prevPatternPos, readyCpIdx)}
    {
      var m := DelayedMatch(patternId, nextPatternPos, prevPatternPos, readyCpIdx);
      heap := heap + [m];
      queue := queue + multiset{m};
      SiftUp(|heap| - 1);
    }

    /** From `start` up, as long as the entry is ready before its parent. */
    method SiftUp(start: nat)
      requires start < |heap| && HeapBut(heap, start) && Bridged(heap, start) && queue == multiset(heap)
      modifies `heap
      ensures Valid()
    {
      var i: nat := start;
      while i > 0 && heap[i].readyCpIdx < heap[Parent(i)].readyCpIdx
        invariant i < |heap| && HeapBut(heap, i) && Bridged(heap, i) && queue == multiset(heap)
      {
        UpStep(heap, i);
        heap := Swapped(heap, i, Parent(i));
        i := Parent(i);
      }
      UpDone(heap, i);
    }

    /** Only the top of the heap is looked at. */
    method FrontReady(currentCpIdx: nat) returns (r: bool)
      requires Valid()
      ensures r <==> exists m :: m in queue && m.readyCpIdx <= currentCpIdx
    {
      if heap == [] { return false; }
      RootEarliest(heap);
      return heap[0].readyCpIdx <= currentCpIdx;
    }

    /** The entry at the top. */
    ghost function Top(): DelayedMatch
      requires Valid() && queue != multiset{}
      reads this
    {
      heap[0]
    }

    method Front() returns (m: DelayedMatch)
      requires Valid() && queue != multiset{}
      ensures m == Top() && m in queue && forall x :: x in queue ==> m.readyCpIdx <= x.readyCpIdx
    {
      RootEarliest(heap);
      m := heap[0];
    }

    method Pop()
      requires Valid() && queue != multiset{}
      modifies this
      ensures Valid() && queue == old(queue) - multiset{old(Top())} && |heap| + 1 == old(|heap|)
    {
      hide HeapBut, HeapUnder, IsHeap;
      var n := |heap| - 1;
      ghost var h := heap;
      LastToRoot(h);
      queue := queue - multiset{Top()};
      if n == 0 {
        heap := [];
        assert IsHeap(heap) by { EmptyHeap(); }
      } else {
        heap := heap[..n][0 := heap[n]];
        SiftDown();
      }
    }

    /** From the root down, as long as a child is ready before the entry. */
    method SiftDown()
      requires heap != [] && HeapUnder(heap, 0) && queue == multiset(heap)
      modifies `heap
      ensures Valid() && |heap| == old(|heap|)
    {
      hide HeapUnder, Bridged, IsHeap, Parent;
      var i: nat := 0;
      RootBridged(heap);
      while 2 * i + 1 < |heap|
        invariant HeapUnder(heap, i) && Bridged(heap, i) && queue == multiset(heap) && |heap| == old(|heap|)
        decreases |heap| - i
      {
        var c := 2 * i + 1;
        if c + 1 < |heap| && heap[c + 1].readyCpIdx < heap[c].readyCpIdx { c := c + 1; }
        FirstChild(heap, i, c);
        if heap[i].readyCpIdx <= heap[c].readyCpIdx {
          DownDone(heap, i);
          return;
        }
        DownStep(heap, i, c);
        heap := Swapped(heap, i, c);
        i := c;
      }
      LeafDone(heap, i);
    }

    method Clear()
      requires Valid()
      modifies this
      ensures Valid() && queue == multiset{}
    {
      while heap != []
        invariant Valid()
        decreases |heap|
      {
        Pop();
      }
    }
  }
}
