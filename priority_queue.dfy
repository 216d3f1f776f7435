/**
 * The binary max-heap of include/taapp/priority_queue.h, kept in the
 * dynamic array of vector.h.  `less` plays the role of Compare: a parent never
 * compares less than its children, so the front element is a maximum.
 *
 * The heap predicates quantify over `Ordered` and `Dominates` instances
 * rather than over raw comparisons, so that the verifier only unfolds them
 * at the slots a proof names.
 */
module PriorityQueues {
  import opened Orders
  import opened Vectors

  /** (i - 1) >> 1 on ptrdiff_t: an arithmetic shift, that is, floor division. */
  function Parent(i: int): int
  {
    (i - 1) / 2
  }

  /** The edge from slot i's parent to slot i keeps the heap order. */
  ghost predicate Ordered<T>(less: (T, T) -> bool, s: seq<T>, i: int)
  {
    0 < i < |s| ==> !less(s[Parent(i)], s[i])
  }

  /** The element at slot j does not compare less than the one at slot i. */
  ghost predicate Dominates<T>(less: (T, T) -> bool, s: seq<T>, j: int, i: int)
  {
    0 <= j < |s| && 0 <= i < |s| ==> !less(s[j], s[i])
  }

  /** No element compares less than any of its children. */
  ghost predicate IsHeap<T>(less: (T, T) -> bool, s: seq<T>)
  {
    forall i {:trigger Ordered(less, s, i)} :: Ordered(less, s, i)
  }

  /** Every edge but the one into slot k keeps the heap order. */
  ghost predicate HeapExceptInto<T>(less: (T, T) -> bool, s: seq<T>, k: int)
  {
    forall i {:trigger Ordered(less, s, i)} :: i != k ==> Ordered(less, s, i)
  }

  /** Every edge but those out of slot k keeps the heap order. */
  ghost predicate HeapExceptFrom<T>(less: (T, T) -> bool, s: seq<T>, k: int)
  {
    forall i {:trigger Ordered(less, s, i)} :: Parent(i) != k ==> Ordered(less, s, i)
  }

  /** Slot j dominates every child of slot k. */
  ghost predicate ChildrenDominated<T>(less: (T, T) -> bool, s: seq<T>, j: int, k: int)
  {
    forall i {:trigger Dominates(less, s, j, i)} :: 0 < i && Parent(i) == k ==> Dominates(less, s, j, i)
  }

  /** Sift-up state: n sits at slot k and only the edge into k may be out of order. */
  ghost predicate SiftUpInvariant<T>(less: (T, T) -> bool, s: seq<T>, k: int, n: T)
  {
    0 <= k < |s| && s[k] == n && HeapExceptInto(less, s, k)
    && (k > 0 ==> ChildrenDominated(less, s, Parent(k), k))
  }

  /** Sift-down state: node sits at slot k and only the edges out of k may be out of order. */
  ghost predicate SiftDownInvariant<T>(less: (T, T) -> bool, s: seq<T>, k: int, node: T)
  {
    0 <= k < |s| && s[k] == node && HeapExceptFrom(less, s, k)
    && (k > 0 ==> ChildrenDominated(less, s, Parent(k), k))
  }

  /** s with the elements at i and j exchanged. */
  function Swapped<T>(s: seq<T>, i: nat, j: nat): (r: seq<T>)
    requires i < |s| && j < |s|
    ensures |r| == |s| && r[i] == s[j] && r[j] == s[i]
    ensures forall m :: 0 <= m < |s| && m != i && m != j ==> r[m] == s[m]
  {
    s[i := s[j]][j := s[i]]
  }

  /** Every element is dominated by its ancestors, in particular by the root. */
  lemma {:induction false} RootDominates<T(!new)>(less: (T, T) -> bool, s: seq<T>, i: nat)
    requires StrictWeakOrder(less) && IsHeap(less, s) && i < |s|
    ensures !less(s[0], s[i])
    decreases i
  {
    if i > 0 {
      assert Ordered(less, s, i);
      RootDominates(less, s, Parent(i));
      NotLessTransitive(less, s[0], s[Parent(i)], s[i]);
    }
  }

  /** The front of a heap is a maximum: nothing compares greater. */
  lemma HeapTopIsMax<T(!new)>(less: (T, T) -> bool, s: seq<T>)
    requires StrictWeakOrder(less) && IsHeap(less, s) && |s| > 0
    ensures forall i :: 0 <= i < |s| ==> !less(s[0], s[i])
  {
    forall i | 0 <= i < |s| {
      RootDominates(less, s, i);
    }
  }

  /**
   * What pop() leaves behind never has a top above the one it removed: the
   * reason repeated pops come out in non-increasing order.
   */
  lemma PopNeverRaisesTop<T(!new)>(less: (T, T) -> bool, s: seq<T>, t: seq<T>)
    requires StrictWeakOrder(less) && IsHeap(less, s) && |s| > 0
    requires multiset(s) == multiset(t) + multiset{s[0]} && |t| > 0
    ensures !less(s[0], t[0])
  {
    assert t[0] in multiset(t);
    assert t[0] in multiset(s);
    var i :| 0 <= i < |s| && s[i] == t[0];
    RootDominates(less, s, i);
  }

  class PriorityQueue<T(0,!new)> {
    const container: Vector<T>
    const less: (T, T) -> bool

    ghost predicate Valid()
      reads this, container, container.data
    {
      StrictWeakOrder(less) && container.Valid() && IsHeap(less, container.Elements())
    }

    ghost function Elements(): seq<T>
      reads this, container, container.data
      requires Valid()
    {
      container.Elements()
    }

    constructor (less: (T, T) -> bool)
      requires StrictWeakOrder(less)
      ensures Valid() && fresh(container) && fresh(container.data)
      ensures Elements() == [] && this.less == less
    {
      this.less := less;
      container := new Vector<T>();
    }

    /** size(): the size of the underlying container. */
    function Size(): (r: nat)
      reads this, container, container.data
      requires Valid()
      ensures r == |Elements()|
    {
      container.Size()
    }

    /** empty(): the emptiness of the underlying container. */
    function Empty(): (r: bool)
      reads this, container, container.data
      requires Valid()
      ensures r <==> Elements() == []
    {
      container.Empty()
    }

    /** top(): the front of the container, which is a maximum under `less`. */
    function Top(): (r: T)
      reads this, container, container.data
      requires Valid() && |Elements()| > 0
      ensures r == Elements()[0]
      ensures forall i :: 0 <= i < |Elements()| ==> !less(r, Elements()[i])
    {
      HeapTopIsMax(less, container.Elements());
      container.Front()
    }

    /** push(n): append n, then sift it up while its parent compares less. */
    method Push(n: T)
      requires Valid()
      modifies container, container.data
      ensures Valid()
      ensures multiset(Elements()) == old(multiset(Elements())) + multiset{n}
      ensures |Elements()| == old(|Elements()|) + 1
      ensures container.data == old(container.data) || fresh(container.data)
    {
      ghost var was := Elements();
      var index := container.size;
      container.PushBack(n);
      var heap := container.data;
      PushStart(less, was, n);
      SiftUp(less, heap, container.size, index, n);
    }

    /**
     * pop(): the source asserts a non-empty queue.  The last element replaces
     * the front and sinks below the greater of its children while it is less.
     */
    method Pop()
      requires Valid() && |Elements()| > 0
      modifies container, container.data
      ensures Valid() && container.data == old(container.data)
      ensures old(multiset(Elements())) == multiset(Elements()) + multiset{old(Elements()[0])}
      ensures |Elements()| == old(|Elements()|) - 1
    {
      ghost var was := Elements();
      var node := container.Back();
      container.PopBack();
      if container.Size() > 0 {
        var heap := container.data;
        var end := container.size;
        PopStart(less, was);
        Store(heap, end, 0, node);
        SiftDown(less, heap, end, node);
      }
    }
  }

  /**
   * The sift-up loop of push(): n, at slot index of heap[0 .. end), rises
   * above its parent while the parent compares less.
   */
  method SiftUp<T(!new)>(less: (T, T) -> bool, heap: array<T>, end: nat, index: nat, n: T)
    requires StrictWeakOrder(less) && end <= heap.Length
    requires SiftUpInvariant(less, heap[..end], index, n)
    modifies heap
    ensures IsHeap(less, heap[..end])
    ensures multiset(heap[..end]) == old(multiset(heap[..end]))
  {
    var index: int := index;
    var parentindex := Parent(index);
    while parentindex >= 0
      invariant parentindex == Parent(index)
      invariant SiftUpInvariant(less, heap[..end], index, n)
      invariant multiset(heap[..end]) == old(multiset(heap[..end]))
    {
      if less(heap[parentindex], heap[index]) {
        SiftUpStep(less, heap[..end], index, n);
        Exchange(heap, end, index, parentindex);
        index := parentindex;
        parentindex := Parent(index);
      } else {
        break;
      }
    }
    SiftUpDone(less, heap[..end], index, n);
  }

  /**
   * The sift-down loop of pop(): node, at the front of heap[0 .. end), sinks
   * below the greater of its children while it compares less.
   */
  method SiftDown<T(!new)>(less: (T, T) -> bool, heap: array<T>, end: nat, node: T)
    requires StrictWeakOrder(less) && 0 < end <= heap.Length && heap[0] == node
    requires HeapExceptFrom(less, heap[..end], 0)
    modifies heap
    ensures IsHeap(less, heap[..end])
    ensures multiset(heap[..end]) == old(multiset(heap[..end]))
  {
    var index := 0;
    var childindex := 2 * index + 1;
    while childindex < end
      invariant childindex == 2 * index + 1
      invariant SiftDownInvariant(less, heap[..end], index, node)
      invariant multiset(heap[..end]) == old(multiset(heap[..end]))
    {
      if childindex + 1 < end {
        if less(heap[childindex], heap[childindex + 1]) {
          childindex := childindex + 1;
        }
      }
      SiftDownChoice(less, heap[..end], index, childindex, node);
      if less(node, heap[childindex]) {
        Exchange(heap, end, index, childindex);
        index := childindex;
        childindex := 2 * index + 1;
      } else {
        return;
      }
    }
    SiftDownLeaf(less, heap[..end], index, node);
  }

  /**
   * The two stores of one sift step.  The moving element already sits at
   * slot i, so writing the other slot's element there and the moving
   * element into slot j exchanges the two.
   */
  method Exchange<T>(heap: array<T>, end: nat, i: nat, j: nat)
    requires i < end && j < end && end <= heap.Length
    modifies heap
    ensures heap[..end] == Swapped(old(heap[..end]), i, j)
    ensures multiset(heap[..end]) == old(multiset(heap[..end]))
  {
    SwapSameMultiset(heap[..end], i, j);
    var moving := heap[i];
    heap[i] := heap[j];
    heap[j] := moving;
  }

  /** *heap = node in pop(): one store into the live prefix. */
  method Store<T>(heap: array<T>, end: nat, i: nat, x: T)
    requires i < end <= heap.Length
    modifies heap
    ensures heap[..end] == old(heap[..end])[i := x]
  {
    heap[i] := x;
  }

  lemma SwapSameMultiset<T>(s: seq<T>, i: nat, j: nat)
    requires i < |s| && j < |s|
    ensures multiset(Swapped(s, i, j)) == multiset(s)
  {
    var t := s[i := s[j]];
    assert multiset(t) == multiset(s) - multiset{s[i]} + multiset{s[j]};
    assert multiset(t[j := s[i]]) == multiset(t) - multiset{t[j]} + multiset{s[i]};
  }

  /** Appending n to a heap leaves only the edge into the new slot in doubt. */
  lemma PushStart<T>(less: (T, T) -> bool, s: seq<T>, n: T)
    requires IsHeap(less, s)
    ensures SiftUpInvariant(less, s + [n], |s|, n)
  {
    var t := s + [n];
    forall i | i != |s|
      ensures Ordered(less, t, i)
    {
      if 0 < i < |t| {
        assert Ordered(less, s, i);
      }
    }
  }

  /** Moving the last element to the front leaves only the edges out of the front in doubt. */
  lemma PopStart<T>(less: (T, T) -> bool, s: seq<T>)
    requires IsHeap(less, s) && |s| >= 2
    ensures HeapExceptFrom(less, s[..|s| - 1][0 := s[|s| - 1]], 0)
    ensures multiset(s) == multiset(s[..|s| - 1][0 := s[|s| - 1]]) + multiset{s[0]}
  {
    var t := s[..|s| - 1][0 := s[|s| - 1]];
    assert t == [s[|s| - 1]] + s[1..|s| - 1];
    forall i | Parent(i) != 0
      ensures Ordered(less, t, i)
    {
      if 0 < i < |t| {
        assert Ordered(less, s, i);
      }
    }
    assert s == [s[0]] + s[1..|s| - 1] + [s[|s| - 1]];
  }

  /** One exchange of sift-up moves the only disorder one edge closer to the root. */
  lemma SiftUpStep<T(!new)>(less: (T, T) -> bool, s: seq<T>, k: int, n: T)
    requires StrictWeakOrder(less) && SiftUpInvariant(less, s, k, n)
    requires k > 0 && less(s[Parent(k)], n)
    ensures SiftUpInvariant(less, Swapped(s, k, Parent(k)), Parent(k), n)
  {
    var p := Parent(k);
    var t := Swapped(s, k, p);
    forall i | i != p
      ensures Ordered(less, t, i)
    {
      if 0 < i < |t| {
        if i == k {
          Asymmetric(less, s[p], n);
        } else if Parent(i) == k {
          assert Dominates(less, s, p, i);
        } else if Parent(i) == p {
          assert Ordered(less, s, i);
          LessThenNotLess(less, s[p], n, s[i]);
        } else {
          assert Ordered(less, s, i);
        }
      }
    }
    if p > 0 {
      forall i | 0 < i && Parent(i) == p
        ensures Dominates(less, t, Parent(p), i)
      {
        if i < |t| {
          assert Ordered(less, s, p);
          if i != k {
            assert Ordered(less, s, i);
            NotLessTransitive(less, s[Parent(p)], s[p], s[i]);
          }
        }
      }
    }
  }

  /** Sift-up stops at the root or below a parent that does not compare less. */
  lemma SiftUpDone<T>(less: (T, T) -> bool, s: seq<T>, k: int, n: T)
    requires SiftUpInvariant(less, s, k, n)
    requires k > 0 ==> !less(s[Parent(k)], s[k])
    ensures IsHeap(less, s)
  {
    forall i
      ensures Ordered(less, s, i)
    {
      if i != k {
        assert HeapExceptInto(less, s, k);
      }
    }
  }

  /** The child sift-down picks, the greater of the two, dominates every child of slot k. */
  lemma GreaterChild<T(!new)>(less: (T, T) -> bool, s: seq<T>, k: nat, c: int)
    requires StrictWeakOrder(less) && 0 < c < |s|
    requires (c == 2 * k + 1 && (c + 1 < |s| ==> !less(s[c], s[c + 1])))
          || (c == 2 * k + 2 && less(s[c - 1], s[c]))
    ensures Parent(c) == k && ChildrenDominated(less, s, c, k)
  {
    forall i | 0 < i && Parent(i) == k
      ensures Dominates(less, s, c, i)
    {
      assert i == 2 * k + 1 || i == 2 * k + 2;
      if c == 2 * k + 2 {
        Asymmetric(less, s[c - 1], s[c]);
      }
    }
  }

  /**
   * Exchanging node with the greater child moves the disorder one level
   * down; when node does not compare less than that child the heap is
   * already restored.
   */
  lemma SiftDownChoice<T(!new)>(less: (T, T) -> bool, s: seq<T>, k: nat, c: int, node: T)
    requires StrictWeakOrder(less) && SiftDownInvariant(less, s, k, node) && 0 < c < |s|
    requires (c == 2 * k + 1 && (c + 1 < |s| ==> !less(s[c], s[c + 1])))
          || (c == 2 * k + 2 && less(s[c - 1], s[c]))
    ensures less(node, s[c]) ==> SiftDownInvariant(less, Swapped(s, k, c), c, node)
    ensures !less(node, s[c]) ==> IsHeap(less, s)
  {
    GreaterChild(less, s, k, c);
    if less(node, s[c]) {
      var t := Swapped(s, k, c);
      forall i | Parent(i) != c
        ensures Ordered(less, t, i)
      {
        if 0 < i < |t| {
          if i == k {
            assert Dominates(less, s, Parent(k), c);
          } else if i == c {
            Asymmetric(less, node, s[c]);
          } else if Parent(i) == k {
            assert Dominates(less, s, c, i);
          } else {
            assert Ordered(less, s, i);
          }
        }
      }
      forall i | 0 < i && Parent(i) == c
        ensures Dominates(less, t, k, i)
      {
        assert Ordered(less, s, i);
      }
    } else {
      forall i
        ensures Ordered(less, s, i)
      {
        if 0 < i < |s| && Parent(i) == k {
          assert Dominates(less, s, c, i);
          NotLessTransitive(less, node, s[c], s[i]);
        } else {
          assert HeapExceptFrom(less, s, k);
        }
      }
    }
  }

  /** A node without children is never out of order with them. */
  lemma SiftDownLeaf<T>(less: (T, T) -> bool, s: seq<T>, k: int, node: T)
    requires SiftDownInvariant(less, s, k, node) && 2 * k + 1 >= |s|
    ensures IsHeap(less, s)
  {
    forall i
      ensures Ordered(less, s, i)
    {
      assert HeapExceptFrom(less, s, k);
    }
  }

  /** Each element compares no less than the next: the order in which a drain pops. */
  ghost predicate NonIncreasing<T>(less: (T, T) -> bool, s: seq<T>)
  {
    forall i :: 0 < i < |s| ==> !less(s[i - 1], s[i])
  }

  lemma AppendNonIncreasing<T>(less: (T, T) -> bool, s: seq<T>, t: T)
    requires NonIncreasing(less, s) && (|s| > 0 ==> !less(s[|s| - 1], t))
    ensures NonIncreasing(less, s + [t])
  {
  }

  /**
   * The drain loop of the priority-queue test: popping until empty yields the
   * pushed elements in non-increasing order and leaves size() == 0.
   */
  method Drain<T(0,!new)>(q: PriorityQueue<T>) returns (tops: seq<T>)
    requires q.Valid()
    modifies q.container, q.container.data
    ensures q.Valid() && q.Elements() == [] && q.Size() == 0
    ensures multiset(tops) == old(multiset(q.Elements()))
    ensures NonIncreasing(q.less, tops)
  {
    tops := [];
    while !q.Empty()
      invariant q.Valid() && q.container.data == old(q.container.data)
      invariant multiset(tops) + multiset(q.Elements()) == old(multiset(q.Elements()))
      invariant NonIncreasing(q.less, tops)
      invariant |tops| > 0 && |q.Elements()| > 0 ==> !q.less(tops[|tops| - 1], q.Elements()[0])
      decreases |q.Elements()|
    {
      var t := q.Top();
      ghost var before := q.Elements();
      AppendNonIncreasing(q.less, tops, t);
      q.Pop();
      if |q.Elements()| > 0 {
        PopNeverRaisesTop(q.less, before, q.Elements());
      }
      tops := tops + [t];
    }
  }
}
