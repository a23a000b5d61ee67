/**
 * The binary min-heap of tree/src/heap.rs: a vector whose element at `i > 0` is never
 * smaller than the one at its parent `(i + 1) / 2 - 1`. `push` sifts the new element up;
 * `pop` moves a hole holding the minimum down to a leaf, swaps it with the last element,
 * sifts that element up and pops the minimum off the end.
 */
module MinHeap {
  import opened Wrappers

  /** The parent index used by `fix_up`. */
  function Parent(i: nat): nat
    requires 0 < i
  {
    (i + 1) / 2 - 1
  }

  /** `Vec::swap`. */
  function Swap(s: seq<int>, i: nat, j: nat): (r: seq<int>)
    requires i < |s| && j < |s|
    ensures |r| == |s| && multiset(r) == multiset(s)
  {
    s[i := s[j]][j := s[i]]
  }

  /** The first `n` elements of `s` are heap-ordered. */
  ghost predicate IsHeap(s: seq<int>, n: nat)
    requires n <= |s|
  {
    forall i {:trigger Parent(i)} :: 0 < i < n ==> s[Parent(i)] <= s[i]
  }

  /** The first `n` elements are heap-ordered except, maybe, between `k` and its parent. */
  ghost predicate HeapExcept(s: seq<int>, n: nat, k: nat)
    requires n <= |s|
  {
    forall i {:trigger Parent(i)} :: 0 < i < n && i != k ==> s[Parent(i)] <= s[i]
  }

  /** The parent of `k` is not greater than the children of `k`. */
  ghost predicate Bridge(s: seq<int>, n: nat, k: nat)
    requires k < n <= |s|
  {
    0 < k ==> forall c :: 0 < c < n && Parent(c) == k ==> s[Parent(k)] <= s[c]
  }

  ghost predicate Sorted(s: seq<int>)
  {
    forall i, j :: 0 <= i < j < |s| ==> s[i] <= s[j]
  }

  /** The root of a heap is its minimum. */
  lemma {:induction false} HeapRootMin(s: seq<int>, n: nat, i: nat)
    requires n <= |s| && IsHeap(s, n) && i < n
    ensures s[0] <= s[i]
    decreases i
  {
    if i > 0 {
      HeapRootMin(s, n, Parent(i));
    }
  }

  /** One swap of `fix_up`: the element moves to its parent's place, and so does the flaw. */
  lemma SiftUpStep(s: seq<int>, n: nat, k: nat)
    requires 0 < k < n <= |s|
    requires HeapExcept(s, n, k) && Bridge(s, n, k) && s[Parent(k)] > s[k]
    ensures HeapExcept(Swap(s, Parent(k), k), n, Parent(k))
    ensures Bridge(Swap(s, Parent(k), k), n, Parent(k))
  {
    var p := Parent(k);
    var t := Swap(s, p, k);
    forall i | 0 < i < n && i != p
      ensures t[Parent(i)] <= t[i]
    {
      if i == k {
      } else if Parent(i) == k {
      } else if Parent(i) == p {
        assert s[p] <= s[i];
      }
    }
    if 0 < p {
      forall c | 0 < c < n && Parent(c) == p
        ensures t[Parent(p)] <= t[c]
      {
        if c != k {
          assert s[p] <= s[c];
        }
      }
    }
  }

  /**
   * The state of the loop in `pop`: the minimum `m` sits at `cur`; while `cur` is not the
   * last index, the vector is ordered except between `cur` and its parent; once it is, every
   * element before it is ordered.
   */
  ghost predicate HoleInvariant(s: seq<int>, cur: nat, m: int)
  {
    && cur < |s| && s[cur] == m
    && (cur < |s| - 1 ==>
        && HeapExcept(s, |s|, cur) && Bridge(s, |s|, cur)
        && forall i :: 0 <= i < |s| ==> m <= s[i])
    && (cur == |s| - 1 ==> IsHeap(s, |s| - 1))
  }

  /** `pop` starts with the hole at the root, which holds the minimum. */
  lemma HoleStart(s: seq<int>)
    requires 0 < |s| && IsHeap(s, |s|)
    ensures HoleInvariant(s, 0, s[0])
    ensures forall i :: 0 <= i < |s| ==> s[0] <= s[i]
  {
    forall i | 0 <= i < |s|
      ensures s[0] <= s[i]
    {
      HeapRootMin(s, |s|, i);
    }
  }

  /** The hole holding the minimum at `k` moves down to its smaller child `c`. */
  lemma HoleStep(s: seq<int>, k: nat, c: nat, m: int)
    requires (k + 1) * 2 - 1 < |s| - 1 && (c == (k + 1) * 2 - 1 || c == (k + 1) * 2)
    requires s[c] <= s[(k + 1) * 2 - 1] && s[c] <= s[(k + 1) * 2]
    requires HoleInvariant(s, k, m)
    ensures HoleInvariant(Swap(s, k, c), c, m)
  {
    var t := Swap(s, k, c);
    assert Parent(c) == k;
    forall i | 0 < i < |s| && i != c
      ensures t[Parent(i)] <= t[i]
    {
      if i == k {
      } else if Parent(i) == k {
        assert i == (k + 1) * 2 - 1 || i == (k + 1) * 2;
      } else if Parent(i) == c {
      }
    }
  }

  /** The hole at `k` moves to its smaller child `c`, which may be the last element. */
  lemma HoleMove(s: seq<int>, k: nat, c: nat, m: int)
    requires (k + 1) * 2 - 1 <= |s| - 1
    requires c == (k + 1) * 2 - 1 || (c == (k + 1) * 2 && c < |s|)
    requires s[c] <= s[(k + 1) * 2 - 1] && ((k + 1) * 2 < |s| ==> s[c] <= s[(k + 1) * 2])
    requires HoleInvariant(s, k, m)
    ensures HoleInvariant(Swap(s, k, c), c, m)
  {
    if (k + 1) * 2 - 1 < |s| - 1 {
      HoleStep(s, k, c, m);
    } else {
      HoleAboveLast(s, k, m);
    }
  }

  /** The hole at a leaf `k`: swapping it with the last element leaves only `k` to sift up. */
  lemma HoleAtLeaf(s: seq<int>, k: nat, m: int)
    requires k < |s| - 1 && (k + 1) * 2 - 1 > |s| - 1
    requires HoleInvariant(s, k, m)
    ensures Swap(s, k, |s| - 1)[|s| - 1] == m
    ensures HeapExcept(Swap(s, k, |s| - 1), |s| - 1, k) && Bridge(Swap(s, k, |s| - 1), |s| - 1, k)
  {
    var last := |s| - 1;
    var t := Swap(s, k, last);
    forall i | 0 < i < last && i != k
      ensures t[Parent(i)] <= t[i]
    {
      assert Parent(i) != k;
    }
    if 0 < k {
      forall c | 0 < c < last && Parent(c) == k
        ensures false
      {
      }
    }
  }

  /** The hole at the parent of the last element: after the swap the prefix is a heap. */
  lemma HoleAboveLast(s: seq<int>, k: nat, m: int)
    requires (k + 1) * 2 - 1 == |s| - 1
    requires HoleInvariant(s, k, m)
    ensures HoleInvariant(Swap(s, k, |s| - 1), |s| - 1, m)
  {
    var last := |s| - 1;
    var t := Swap(s, k, last);
    forall i | 0 < i < last
      ensures t[Parent(i)] <= t[i]
    {
      if i == k {
        assert Parent(last) == k;
      } else {
        assert Parent(i) != k;
      }
    }
  }

  /** The head of a sorted sequence is not greater than any of its elements. */
  lemma SortedHead(a: seq<int>, x: int)
    requires Sorted(a) && x in multiset(a)
    ensures a != [] && a[0] <= x
  {
    assert x in a;
    var i :| 0 <= i < |a| && a[i] == x;
    assert i == 0 || a[0] <= a[i];
  }

  /** Dropping elements past the ordered prefix keeps it ordered. */
  lemma HeapPrefix(s: seq<int>, n: nat)
    requires n <= |s| && IsHeap(s, n)
    ensures IsHeap(s[..n], n)
  {
    forall i | 0 < i < n
      ensures s[..n][Parent(i)] <= s[..n][i]
    {
      assert s[Parent(i)] <= s[i];
    }
  }

  /** The elements after the head are the elements without the head. */
  lemma MultisetTail(a: seq<int>)
    requires a != []
    ensures multiset(a[1..]) == multiset(a) - multiset{a[0]}
  {
    assert a == [a[0]] + a[1..];
  }

  /** The elements after the head of a sorted sequence are sorted. */
  lemma SortedTail(a: seq<int>)
    requires a != [] && Sorted(a)
    ensures Sorted(a[1..])
  {
    forall i, j | 0 <= i < j < |a| - 1
      ensures a[1..][i] <= a[1..][j]
    {
      assert a[1..][i] == a[i + 1] && a[1..][j] == a[j + 1];
    }
  }

  /** Two sorted sequences with the same elements are equal. */
  lemma {:induction false} SortedUnique(a: seq<int>, b: seq<int>)
    requires Sorted(a) && Sorted(b) && multiset(a) == multiset(b)
    ensures a == b
  {
    if a == [] {
      assert |b| == |multiset(b)| == 0;
    } else {
      assert b != [] && a[0] == b[0] by {
        assert a[0] in multiset(a);
        SortedHead(b, a[0]);
        assert b[0] in multiset(b);
        SortedHead(a, b[0]);
      }
      assert multiset(a[1..]) == multiset(b[1..]) by {
        MultisetTail(a);
        MultisetTail(b);
      }
      assert Sorted(a[1..]) && Sorted(b[1..]) by {
        SortedTail(a);
        SortedTail(b);
      }
      SortedUnique(a[1..], b[1..]);
      calc {
        a;
        [a[0]] + a[1..];
        [b[0]] + b[1..];
        b;
      }
    }
  }

  class Heap {
    var heap: seq<int>

    ghost predicate Valid()
      reads this
    {
      IsHeap(heap, |heap|)
    }

    /** `Heap::default`. */
    constructor ()
      ensures Valid() && heap == []
    {
      heap := [];
    }

    /**
     * `fix_up`: sifts the element at `index` up by swapping it with its parent until the
     * parent is not greater or the root is reached. `n` (ghost) is the prefix being ordered:
     * the whole vector for `push`, all but the last element inside `pop`. Before the call the
     * prefix is ordered except between `index` and its parent, and that parent is not greater
     * than the children of `index`.
     */
    method FixUp(index: nat, ghost n: nat)
      requires index < n <= |heap|
      requires HeapExcept(heap, n, index) && Bridge(heap, n, index)
      modifies this
      ensures |heap| == old(|heap|) && IsHeap(heap, n)
      ensures heap[n..] == old(heap[n..])
      ensures multiset(heap) == old(multiset(heap))
    {
      var idx: nat := index;
      while idx > 0
        invariant idx < n && |heap| == old(|heap|) && heap[n..] == old(heap[n..])
        invariant multiset(heap) == old(multiset(heap))
        invariant HeapExcept(heap, n, idx) && Bridge(heap, n, idx)
      {
        var parent := Parent(idx);
        if heap[parent] <= heap[idx] {
          break;
        }
        SiftUpStep(heap, n, idx);
        heap := Swap(heap, parent, idx);
        idx := parent;
      }
    }

    /** `push`: appends the value and sifts it up. */
    method Push(val: int)
      requires Valid()
      modifies this
      ensures Valid()
      ensures multiset(heap) == old(multiset(heap)) + multiset{val}
      ensures |heap| == old(|heap|) + 1
    {
      var curIndex := |heap|;
      heap := heap + [val];
      FixUp(curIndex, |heap|);
    }

    /**
     * One iteration of the loop in `pop`: the hole at `curIndex` trades places with its
     * smaller child, or, at a leaf, with the last element, which `fix_up` then sifts up.
     */
    method MoveHole(curIndex: nat, lastIndex: nat, ghost m: int) returns (next: nat)
      requires curIndex < lastIndex && |heap| == lastIndex + 1
      requires HoleInvariant(heap, curIndex, m)
      modifies this
      ensures curIndex < next <= lastIndex && |heap| == lastIndex + 1
      ensures multiset(heap) == old(multiset(heap))
      ensures HoleInvariant(heap, next, m)
    {
      var leftIndex := (curIndex + 1) * 2 - 1;
      var swapIndex, needFixUp;
      if leftIndex < lastIndex {
        var rightIndex := leftIndex + 1;
        if heap[leftIndex] < heap[rightIndex] {
          swapIndex, needFixUp := leftIndex, false;
        } else {
          swapIndex, needFixUp := rightIndex, false;
        }
      } else if leftIndex == lastIndex {
        swapIndex, needFixUp := lastIndex, false;
      } else {
        swapIndex, needFixUp := lastIndex, true;
      }
      if needFixUp {
        HoleAtLeaf(heap, curIndex, m);
      } else {
        HoleMove(heap, curIndex, swapIndex, m);
      }
      heap := Swap(heap, curIndex, swapIndex);
      if needFixUp {
        FixUp(curIndex, lastIndex);
      }
      next := swapIndex;
    }

    /**
     * `pop`: `None` on an empty heap; otherwise the minimum, with the heap one shorter and
     * still ordered.
     */
    method Pop() returns (r: Option<int>)
      requires Valid()
      modifies this
      ensures Valid()
      ensures old(heap) == [] ==> r == None && heap == []
      ensures old(heap) != [] ==>
        && r.Some?
        && (forall i :: 0 <= i < |old(heap)| ==> r.value <= old(heap)[i])
        && multiset(heap) == old(multiset(heap)) - multiset{r.value}
        && |heap| == old(|heap|) - 1
    {
      if |heap| == 0 {
        return None;
      }
      var lastIndex := |heap| - 1;
      ghost var m := heap[0];
      HoleStart(heap);
      var curIndex := 0;
      while curIndex < lastIndex
        invariant curIndex <= lastIndex && |heap| == lastIndex + 1
        invariant multiset(heap) == old(multiset(heap))
        invariant HoleInvariant(heap, curIndex, m)
        decreases lastIndex - curIndex
      {
        curIndex := MoveHole(curIndex, lastIndex, m);
      }
      r := Some(heap[lastIndex]);
      HeapPrefix(heap, lastIndex);
      assert heap == heap[..lastIndex] + [heap[lastIndex]];
      heap := heap[..lastIndex];
    }

    /** `drain`: an iterator that pops the heap empty. */
    method Drain() returns (it: DrainIter)
      requires Valid()
      ensures fresh(it) && it.heap == this
    {
      it := new DrainIter(this);
    }
  }

  class DrainIter {
    const heap: Heap

    constructor (heap: Heap)
      ensures this.heap == heap
    {
      this.heap := heap;
    }

    /** `DrainIter::next` is `pop`. */
    method Next() returns (r: Option<int>)
      requires heap.Valid()
      modifies heap
      ensures heap.Valid()
      ensures old(heap.heap) == [] ==> r == None && heap.heap == []
      ensures old(heap.heap) != [] ==>
        && r.Some?
        && (forall i :: 0 <= i < |old(heap.heap)| ==> r.value <= old(heap.heap)[i])
        && multiset(heap.heap) == old(multiset(heap.heap)) - multiset{r.value}
        && |heap.heap| == old(|heap.heap|) - 1
    {
      r := heap.Pop();
    }

    /**
     * `collect` over the iterator: the values come out in ascending order, each stored value
     * once, and the heap is left empty.
     */
    method Collect() returns (out: seq<int>)
      requires heap.Valid()
      modifies heap
      ensures heap.Valid() && heap.heap == []
      ensures Sorted(out) && multiset(out) == old(multiset(heap.heap))
    {
      out := [];
      while true
        invariant heap.Valid()
        invariant multiset(out) + multiset(heap.heap) == old(multiset(heap.heap))
        invariant Sorted(out)
        invariant forall i, j :: 0 <= i < |out| && 0 <= j < |heap.heap| ==> out[i] <= heap.heap[j]
        decreases |heap.heap|
      {
        ghost var before := heap.heap;
        var r := Next();
        match r {
          case None =>
            return;
          case Some(v) =>
            forall j | 0 <= j < |heap.heap|
              ensures v <= heap.heap[j]
            {
              assert heap.heap[j] in multiset(heap.heap);
              assert heap.heap[j] in multiset(before);
              assert heap.heap[j] in before;
            }
            forall i, j | 0 <= i < |out| && 0 <= j < |heap.heap|
              ensures out[i] <= heap.heap[j]
            {
              assert heap.heap[j] in multiset(heap.heap);
              assert heap.heap[j] in multiset(before);
              assert heap.heap[j] in before;
            }
            out := out + [v];
        }
      }
    }
  }

  /**
   * The test at tree/src/heap.rs:94-97: whatever order 0..n is pushed in, draining yields
   * 0, 1, ..., n - 1.
   */
  method DrainPermutation(values: seq<int>, n: nat) returns (out: seq<int>)
    requires multiset(values) == multiset(seq(n, i => i))
    ensures out == seq(n, i => i)
  {
    var h := new Heap();
    for k := 0 to |values|
      invariant h.Valid() && multiset(h.heap) == multiset(values[..k])
    {
      h.Push(values[k]);
      assert values[..k + 1] == values[..k] + [values[k]];
    }
    assert values[..|values|] == values;
    var it := h.Drain();
    out := it.Collect();
    SortedUnique(out, seq(n, i => i));
  }
}
