/**
 * The anchor-node doubly linked list of include/taapp/list.h.
 *
 * Every element lives in its own node.  The list owns one more node, the
 * anchor, which is end() and the link target of the first and the last
 * element, so the links form one ring and none of them is ever missing.  An
 * iterator is a node reference.
 *
 * A node is an object holding its value.  The aprev/anext fields of the
 * nodes are node memory, handed out by the allocator the list is built
 * with; here they are the maps `prev` and `next` of an Allocator object,
 * keyed by node, which every list on that allocator shares.  Every link
 * store of the source is one map update, and freeing a node drops its
 * entries.  The ghost field `nodes` of a list lists its element nodes from
 * first to last and `Contents` their values.
 *
 * The shape of the links is the value-level predicate Ring; each operation
 * has a lemma saying that its link stores turn the ring of the old node
 * sequence into the ring of the new one and leave every other node's links
 * alone.
 */
module Lists {

  class Node<T> {
    const value: T

    constructor (value: T)
      ensures this.value == value
    {
      this.value := value;
    }
  }

  /** The link memory of every node an allocator has handed out, and of the anchors using it. */
  class Allocator<T> {
    var next: map<Node<T>, Node<T>>
    var prev: map<Node<T>, Node<T>>

    constructor ()
      ensures next == map[] && prev == map[]
    {
      next := map[];
      prev := map[];
    }
  }

  /** Positions i < j of s hold different entries. */
  ghost predicate DistinctAt<T>(s: seq<T>, i: int, j: int)
  {
    0 <= i < j < |s| ==> s[i] != s[j]
  }

  /** No entry occurs twice in s. */
  ghost predicate Distinct<T>(s: seq<T>)
  {
    forall i, j {:trigger DistinctAt(s, i, j)} :: DistinctAt(s, i, j)
  }

  lemma DistinctIndices<T>(s: seq<T>, i: int, j: int)
    requires Distinct(s) && 0 <= i < |s| && 0 <= j < |s| && i != j
    ensures s[i] != s[j]
  {
    if i < j {
      assert DistinctAt(s, i, j);
    } else {
      assert DistinctAt(s, j, i);
    }
  }

  /** The positions of t == s[..k] + o + s[k..] in terms of s and o. */
  lemma SpliceIndex<T>(s: seq<T>, k: nat, o: seq<T>, t: seq<T>)
    requires k <= |s| && t == s[..k] + o + s[k..]
    ensures |t| == |s| + |o|
    ensures forall j {:trigger t[j]} :: 0 <= j < k ==> t[j] == s[j]
    ensures forall j {:trigger t[j]} :: k <= j < k + |o| ==> t[j] == o[j - k]
    ensures forall j {:trigger t[j]} :: k + |o| <= j < |t| ==> t[j] == s[j - |o|]
  {
  }

  /** The positions of t == s[..k] + s[k + 1..] in terms of s. */
  lemma DropIndex<T>(s: seq<T>, k: nat, t: seq<T>)
    requires k < |s| && t == s[..k] + s[k + 1..]
    ensures |t| == |s| - 1
    ensures forall j {:trigger t[j]} :: 0 <= j < k ==> t[j] == s[j]
    ensures forall j {:trigger t[j]} :: k <= j < |t| ==> t[j] == s[j + 1]
  {
  }

  /** The entries of s[..k] + o + s[k..] are those of s and of o. */
  lemma SpliceMembers<T>(s: seq<T>, k: nat, o: seq<T>, t: seq<T>)
    requires k <= |s| && t == s[..k] + o + s[k..]
    ensures forall x :: x in t <==> x in s || x in o
  {
    SpliceIndex(s, k, o, t);
    forall x
      ensures x in t <==> x in s || x in o
    {
      if x in s {
        var j :| 0 <= j < |s| && s[j] == x;
        assert t[if j < k then j else j + |o|] == x;
      }
      if x in o {
        var j :| 0 <= j < |o| && o[j] == x;
        assert t[k + j] == x;
      }
      if x in t {
        var j :| 0 <= j < |t| && t[j] == x;
        if j < k {
          assert s[j] == x;
        } else if j < k + |o| {
          assert o[j - k] == x;
        } else {
          assert s[j - |o|] == x;
        }
      }
    }
  }

  /** Dropping position k of a sequence without repeats drops exactly s[k]. */
  lemma DropMembers<T>(s: seq<T>, k: nat, t: seq<T>)
    requires Distinct(s) && k < |s| && t == s[..k] + s[k + 1..]
    ensures forall x :: x in t <==> x in s && x != s[k]
  {
    DropIndex(s, k, t);
    forall x
      ensures x in t <==> x in s && x != s[k]
    {
      if x in s && x != s[k] {
        var j :| 0 <= j < |s| && s[j] == x;
        assert t[if j < k then j else j - 1] == x;
      }
      if x in t {
        var j :| 0 <= j < |t| && t[j] == x;
        var j' := if j < k then j else j + 1;
        assert s[j'] == x;
        DistinctIndices(s, j', k);
      }
    }
  }

  /** Placing a run o of other entries at position k keeps the entries distinct. */
  lemma DistinctSplice<T>(s: seq<T>, k: nat, o: seq<T>)
    requires Distinct(s) && Distinct(o) && k <= |s|
    requires forall x :: x in o ==> x !in s
    ensures Distinct(s[..k] + o + s[k..])
  {
    var t := s[..k] + o + s[k..];
    var m := |o|;
    SpliceIndex(s, k, o, t);
    forall i, j ensures DistinctAt(t, i, j)
    {
      if 0 <= i < j < |t| {
        if j < k {
          DistinctIndices(s, i, j);
        } else if i < k && j < k + m {
          assert o[j - k] in o;
        } else if i < k {
          DistinctIndices(s, i, j - m);
        } else if j < k + m {
          DistinctIndices(o, i - k, j - k);
        } else if i < k + m {
          assert o[i - k] in o;
        } else {
          DistinctIndices(s, i - m, j - m);
        }
      }
    }
  }

  /** Dropping position k keeps the entries distinct. */
  lemma DistinctDrop<T>(s: seq<T>, k: nat)
    requires Distinct(s) && k < |s|
    ensures Distinct(s[..k] + s[k + 1..])
  {
    var t := s[..k] + s[k + 1..];
    DropIndex(s, k, t);
    forall i, j ensures DistinctAt(t, i, j)
    {
      if 0 <= i < j < |t| {
        DistinctIndices(s, if i < k then i else i + 1, if j < k then j else j + 1);
      }
    }
  }

  /** s read from its last entry to its first. */
  ghost function Reversed<T>(s: seq<T>): (r: seq<T>)
    ensures |r| == |s|
    ensures forall i :: 0 <= i < |s| ==> r[i] == s[|s| - 1 - i]
  {
    if s == [] then [] else Reversed(s[1..]) + [s[0]]
  }
  /** The ring position k: element k of s, or the anchor a at -1 and at |s|. */
  ghost function Pos<U>(a: U, s: seq<U>, k: int): U
  {
    if 0 <= k < |s| then s[k] else a
  }

  /** Ring position k links forward to k + 1, and k + 1 back to k. */
  ghost predicate LinkAt<U>(a: U, s: seq<U>, next: map<U, U>, prev: map<U, U>, k: int)
  {
    -1 <= k < |s| ==>
      Pos(a, s, k) in next && next[Pos(a, s, k)] == Pos(a, s, k + 1)
      && Pos(a, s, k + 1) in prev && prev[Pos(a, s, k + 1)] == Pos(a, s, k)
  }

  /**
   * The links of a list whose anchor is a and whose elements are s, in
   * order: a, s[0], ..., s[|s| - 1] and back to a, in both directions.
   */
  ghost predicate Ring<U>(a: U, s: seq<U>, next: map<U, U>, prev: map<U, U>)
  {
    a !in s && Distinct(s)
    && forall k {:trigger LinkAt(a, s, next, prev, k)} :: LinkAt(a, s, next, prev, k)
  }

  /** The nodes of a ring: its anchor and its elements. */
  ghost function Members<U>(a: U, s: seq<U>): (r: set<U>)
    ensures a in r && (forall x :: x in s ==> x in r)
    ensures forall x :: x in r ==> x == a || x in s
  {
    {a} + set x | x in s
  }

  /** The entry m1 has for x is in m2 too. */
  ghost predicate Kept<U>(m1: map<U, U>, m2: map<U, U>, x: U)
    requires x in m1
  {
    x in m2 && m2[x] == m1[x]
  }

  /** m2 keeps every entry of m1 except those of the nodes in touched. */
  ghost predicate Unchanged<U>(m1: map<U, U>, m2: map<U, U>, touched: set<U>)
  {
    forall x {:trigger Kept(m1, m2, x)} :: x in m1 && x !in touched ==> Kept(m1, m2, x)
  }

  lemma Linked<U>(a: U, s: seq<U>, next: map<U, U>, prev: map<U, U>, k: int)
    requires Ring(a, s, next, prev) && -1 <= k < |s|
    ensures Pos(a, s, k) in next && next[Pos(a, s, k)] == Pos(a, s, k + 1)
    ensures Pos(a, s, k + 1) in prev && prev[Pos(a, s, k + 1)] == Pos(a, s, k)
  {
    assert LinkAt(a, s, next, prev, k);
  }

  /** Ring positions are different nodes, except -1 and |s|, which are both the anchor. */
  lemma PosDistinct<U>(a: U, s: seq<U>, i: int, j: int)
    requires a !in s && Distinct(s)
    requires -1 <= i < j <= |s| && !(i == -1 && j == |s|)
    ensures Pos(a, s, i) != Pos(a, s, j)
  {
    if i == -1 {
      assert s[j] in s;
    } else if j == |s| {
      assert s[i] in s;
    } else {
      DistinctIndices(s, i, j);
    }
  }

  /** The links of a list without elements: the anchor refers to itself. */
  lemma EmptyRing<U>(a: U, next: map<U, U>, prev: map<U, U>)
    requires a in next && next[a] == a && a in prev && prev[a] == a
    ensures Ring(a, [], next, prev)
  {
    forall k {:trigger LinkAt(a, [], next, prev, k)}
      ensures LinkAt(a, [], next, prev, k)
    {
    }
  }

  /** A ring none of whose nodes is touched survives the change. */
  lemma RingFrame<U>(a: U, s: seq<U>, next: map<U, U>, prev: map<U, U>,
                     next': map<U, U>, prev': map<U, U>, touched: set<U>)
    requires Ring(a, s, next, prev)
    requires Unchanged(next, next', touched) && Unchanged(prev, prev', touched)
    requires Members(a, s) !! touched
    ensures Ring(a, s, next', prev')
  {
    forall k {:trigger LinkAt(a, s, next', prev', k)}
      ensures LinkAt(a, s, next', prev', k)
    {
      if -1 <= k < |s| {
        assert LinkAt(a, s, next, prev, k);
        assert Pos(a, s, k) in Members(a, s) && Pos(a, s, k + 1) in Members(a, s);
        assert Kept(next, next', Pos(a, s, k)) && Kept(prev, prev', Pos(a, s, k + 1));
      }
    }
  }

  /**
   * insert, push_back and push_front: a new node n between positions k - 1
   * and k gets both links, and its neighbours point to it.
   */
  lemma InsertRing<U>(a: U, s: seq<U>, next: map<U, U>, prev: map<U, U>, k: nat, n: U)
    requires Ring(a, s, next, prev) && k <= |s| && n != a && n !in s && n !in next && n !in prev
    ensures Ring(a, s[..k] + [n] + s[k..],
                 next[n := Pos(a, s, k)][Pos(a, s, k - 1) := n],
                 prev[n := Pos(a, s, k - 1)][Pos(a, s, k) := n])
    ensures Unchanged(next, next[n := Pos(a, s, k)][Pos(a, s, k - 1) := n], Members(a, s))
    ensures Unchanged(prev, prev[n := Pos(a, s, k - 1)][Pos(a, s, k) := n], Members(a, s))
  {
    var t := s[..k] + [n] + s[k..];
    var q, p := Pos(a, s, k - 1), Pos(a, s, k);
    var nx, pv := next[n := p][q := n], prev[n := q][p := n];
    SpliceIndex(s, k, [n], t);
    SpliceMembers(s, k, [n], t);
    DistinctSplice(s, k, [n]);
    Linked(a, s, next, prev, k - 1);
    forall i {:trigger LinkAt(a, t, nx, pv, i)}
      ensures LinkAt(a, t, nx, pv, i)
    {
      if -1 <= i < k - 1 {
        assert LinkAt(a, s, next, prev, i);
        PosDistinct(a, s, i, k - 1);
        PosDistinct(a, s, i + 1, k);
      } else if k < i < |t| {
        assert LinkAt(a, s, next, prev, i - 1);
        PosDistinct(a, s, k - 1, i - 1);
        PosDistinct(a, s, k, i);
      }
    }
    assert q in Members(a, s) && p in Members(a, s);
  }

  /**
   * erase, pop_back and pop_front: the neighbours of element k point to
   * each other and its own entries are dropped.
   */
  lemma EraseRing<U>(a: U, s: seq<U>, next: map<U, U>, prev: map<U, U>, k: nat)
    requires Ring(a, s, next, prev) && k < |s|
    ensures Ring(a, s[..k] + s[k + 1..],
                 next[Pos(a, s, k - 1) := Pos(a, s, k + 1)] - {s[k]},
                 prev[Pos(a, s, k + 1) := Pos(a, s, k - 1)] - {s[k]})
    ensures Unchanged(next, next[Pos(a, s, k - 1) := Pos(a, s, k + 1)] - {s[k]}, Members(a, s))
    ensures Unchanged(prev, prev[Pos(a, s, k + 1) := Pos(a, s, k - 1)] - {s[k]}, Members(a, s))
  {
    var t := s[..k] + s[k + 1..];
    var q, p := Pos(a, s, k - 1), Pos(a, s, k + 1);
    var nx, pv := next[q := p] - {s[k]}, prev[p := q] - {s[k]};
    DropIndex(s, k, t);
    DropMembers(s, k, t);
    DistinctDrop(s, k);
    Linked(a, s, next, prev, k - 1);
    Linked(a, s, next, prev, k);
    PosDistinct(a, s, k - 1, k);
    PosDistinct(a, s, k, k + 1);
    forall i {:trigger LinkAt(a, t, nx, pv, i)}
      ensures LinkAt(a, t, nx, pv, i)
    {
      if -1 <= i < k - 1 {
        assert LinkAt(a, s, next, prev, i);
        PosDistinct(a, s, i, k - 1);
        PosDistinct(a, s, i, k);
        PosDistinct(a, s, i + 1, k);
        PosDistinct(a, s, i + 1, k + 1);
      } else if k <= i < |t| {
        assert LinkAt(a, s, next, prev, i + 1);
        PosDistinct(a, s, k - 1, i + 1);
        PosDistinct(a, s, k, i + 1);
        PosDistinct(a, s, k, i + 2);
        PosDistinct(a, s, k + 1, i + 2);
      }
    }
    assert q in Members(a, s) && p in Members(a, s) && s[k] in Members(a, s);
  }

  /**
   * splice: the ring of another list, anchored at b and holding o, is cut
   * open at its anchor and closed around positions k - 1 and k of this one,
   * by the source's four link stores; then b is linked to itself.  q, p, f
   * and l are the nodes the stores read: the node before pos, pos, the first
   * node of o and (after the second store) the node before b, which is the
   * last node of o, or q when o is empty.
   */
  lemma SpliceRing<U>(a: U, s: seq<U>, b: U, o: seq<U>, next: map<U, U>, prev: map<U, U>,
                      k: nat, q: U, p: U, f: U, l: U)
    requires Ring(a, s, next, prev) && Ring(b, o, next, prev) && k <= |s|
    requires a != b && a !in o && b !in s && forall x :: x in o ==> x !in s
    requires q == Pos(a, s, k - 1) && p == Pos(a, s, k) && f == Pos(b, o, 0)
    requires l == if |o| == 0 then q else o[|o| - 1]
    ensures Ring(a, s[..k] + o + s[k..], next[q := f][l := p][b := b], prev[f := q][p := l][b := b])
    ensures Ring(b, [], next[q := f][l := p][b := b], prev[f := q][p := l][b := b])
    ensures Unchanged(next, next[q := f][l := p][b := b], Members(a, s) + Members(b, o))
    ensures Unchanged(prev, prev[f := q][p := l][b := b], Members(a, s) + Members(b, o))
  {
    var t := s[..k] + o + s[k..];
    var M := |o|;
    var nx := next[q := f][l := p][b := b];
    var pv := prev[f := q][p := l][b := b];
    SpliceIndex(s, k, o, t);
    SpliceMembers(s, k, o, t);
    DistinctSplice(s, k, o);
    Linked(a, s, next, prev, k - 1);
    Linked(b, o, next, prev, -1);
    Linked(b, o, next, prev, M - 1);
    if M > 0 {
      assert o[0] in o && o[M - 1] in o;
    }
    forall i {:trigger LinkAt(a, t, nx, pv, i)}
      ensures LinkAt(a, t, nx, pv, i)
    {
      if -1 <= i < k - 1 {
        assert LinkAt(a, s, next, prev, i);
        PosDistinct(a, s, i, k - 1);
        PosDistinct(a, s, i + 1, k);
      } else if k <= i < k + M - 1 {
        assert LinkAt(b, o, next, prev, i - k);
        assert o[i - k] in o && o[i - k + 1] in o;
        DistinctIndices(o, i - k, M - 1);
        DistinctIndices(o, i - k + 1, 0);
      } else if k + M <= i < |t| {
        assert LinkAt(a, s, next, prev, i - M);
        PosDistinct(a, s, k - 1, i - M);
        PosDistinct(a, s, k, i - M + 1);
      }
    }
    EmptyRing(b, nx, pv);
    assert q in Members(a, s) && p in Members(a, s) && f in Members(b, o) && l in Members(a, s) + Members(b, o);
  }

  /** Node i of s holds value c[i]. */
  ghost predicate ValueAt<T>(s: seq<Node<T>>, c: seq<T>, i: int)
  {
    0 <= i < |s| && i < |c| ==> s[i].value == c[i]
  }

  /** c lists the values of the nodes s. */
  ghost predicate Values<T>(s: seq<Node<T>>, c: seq<T>)
  {
    |s| == |c| && forall i {:trigger ValueAt(s, c, i)} :: ValueAt(s, c, i)
  }

  lemma ValuesOne<T>(n: Node<T>, t: T)
    requires n.value == t
    ensures Values([n], [t])
  {
    forall i {:trigger ValueAt([n], [t], i)}
      ensures ValueAt([n], [t], i)
    {
    }
  }

  lemma ValuesSplice<T>(s: seq<Node<T>>, c: seq<T>, k: nat, o: seq<Node<T>>, d: seq<T>)
    requires Values(s, c) && Values(o, d) && k <= |s|
    ensures Values(s[..k] + o + s[k..], c[..k] + d + c[k..])
  {
    var t, e := s[..k] + o + s[k..], c[..k] + d + c[k..];
    SpliceIndex(s, k, o, t);
    SpliceIndex(c, k, d, e);
    forall i {:trigger ValueAt(t, e, i)}
      ensures ValueAt(t, e, i)
    {
      if 0 <= i < k {
        assert ValueAt(s, c, i);
      } else if k <= i < k + |o| {
        assert ValueAt(o, d, i - k);
      } else if k + |o| <= i < |t| {
        assert ValueAt(s, c, i - |o|);
      }
    }
  }

  lemma ValuesDrop<T>(s: seq<Node<T>>, c: seq<T>, k: nat)
    requires Values(s, c) && k < |s|
    ensures Values(s[..k] + s[k + 1..], c[..k] + c[k + 1..])
  {
    var t, e := s[..k] + s[k + 1..], c[..k] + c[k + 1..];
    DropIndex(s, k, t);
    DropIndex(c, k, e);
    forall i {:trigger ValueAt(t, e, i)}
      ensures ValueAt(t, e, i)
    {
      if 0 <= i < k {
        assert ValueAt(s, c, i);
      } else if k <= i < |t| {
        assert ValueAt(s, c, i + 1);
      }
    }
  }

  class List<T(0)> {
    /** anchor_: its value is never read. */
    const anchor: Node<T>
    /** allocator_: the link memory of this list's nodes */
    const alloc: Allocator<T>
    ghost var nodes: seq<Node<T>>
    ghost var Contents: seq<T>

    ghost predicate Valid()
      reads this, alloc
    {
      Ring(anchor, nodes, alloc.next, alloc.prev) && Values(nodes, Contents)
    }

    /** The node at position k of the ring: element k, or the anchor at -1 and at |nodes|. */
    ghost function At(k: int): Node<T>
      reads this
    {
      Pos(anchor, nodes, k)
    }

    /** The nodes whose links this list owns. */
    ghost function Footprint(): set<Node<T>>
      reads this
    {
      Members(anchor, nodes)
    }

    /** Two lists that share no node. */
    ghost predicate Separate(other: List<T>)
      reads this, other
    {
      this != other && anchor != other.anchor
      && anchor !in other.nodes && other.anchor !in nodes
      && forall x :: x in other.nodes ==> x !in nodes
    }

    /** list(): the anchor links to itself. */
    constructor (alloc: Allocator<T>)
      modifies alloc
      ensures Valid() && this.alloc == alloc && fresh(anchor)
      ensures Contents == [] && nodes == []
      ensures Unchanged(old(alloc.next), alloc.next, {anchor})
      ensures Unchanged(old(alloc.prev), alloc.prev, {anchor})
    {
      var v: T := *;
      var a := new Node(v);
      anchor := a;
      this.alloc := alloc;
      nodes := [];
      Contents := [];
      new;
      alloc.prev := alloc.prev[a := a];
      alloc.next := alloc.next[a := a];
      EmptyRing(a, alloc.next, alloc.prev);
    }

    /** empty(): the anchor links to itself exactly when there are no elements. */
    function Empty(): (r: bool)
      reads this, alloc
      requires Valid()
      ensures r <==> Contents == []
    {
      Linked(anchor, nodes, alloc.next, alloc.prev, -1);
      alloc.next[anchor] == anchor
    }

    /** front(): the value after the anchor; an empty list has none. */
    function Front(): (r: T)
      reads this, alloc
      requires Valid() && Contents != []
      ensures r == Contents[0]
    {
      Linked(anchor, nodes, alloc.next, alloc.prev, -1);
      assert ValueAt(nodes, Contents, 0);
      alloc.next[anchor].value
    }

    /** back(): the value before the anchor. */
    function Back(): (r: T)
      reads this, alloc
      requires Valid() && Contents != []
      ensures r == Contents[|Contents| - 1]
    {
      Linked(anchor, nodes, alloc.next, alloc.prev, |nodes| - 1);
      assert ValueAt(nodes, Contents, |nodes| - 1);
      alloc.prev[anchor].value
    }

    /** begin(): the first element, or end() when there is none. */
    function Begin(): (r: Node<T>)
      reads this, alloc
      requires Valid()
      ensures r == At(0)
      ensures Contents == [] <==> r == anchor
    {
      Linked(anchor, nodes, alloc.next, alloc.prev, -1);
      alloc.next[anchor]
    }

    /** end(): the anchor itself, which is no element. */
    function End(): (r: Node<T>)
      reads this, alloc
      requires Valid()
      ensures r == At(|nodes|) && r == At(-1) && r !in nodes
    {
      anchor
    }

    /** The value an iterator at element k dereferences to. */
    function Value(it: Node<T>, ghost k: int): (r: T)
      reads this, alloc
      requires Valid() && 0 <= k < |nodes| && it == At(k)
      ensures r == Contents[k]
    {
      assert ValueAt(nodes, Contents, k);
      it.value
    }

    /** iterator::operator++: the node after position k; from end() it wraps to begin(). */
    function Next(it: Node<T>, ghost k: int): (r: Node<T>)
      reads this, alloc
      requires Valid() && 0 <= k <= |nodes| && it == At(k)
      ensures r == At(if k == |nodes| then 0 else k + 1)
    {
      Linked(anchor, nodes, alloc.next, alloc.prev, if k == |nodes| then -1 else k);
      alloc.next[it]
    }

    /** iterator::operator--: the node before position k. */
    function Prev(it: Node<T>, ghost k: int): (r: Node<T>)
      reads this, alloc
      requires Valid() && 0 <= k <= |nodes| && it == At(k)
      ensures r == At(k - 1)
    {
      Linked(anchor, nodes, alloc.next, alloc.prev, k - 1);
      alloc.prev[it]
    }

    /** The forward walk: ++ from begin() until end(). */
    method Forward() returns (r: seq<T>)
      requires Valid()
      ensures r == Contents
    {
      r := [];
      var it := Begin();
      ghost var i := 0;
      while it != End()
        invariant 0 <= i <= |nodes| && it == At(i)
        invariant r == Contents[..i]
        decreases |nodes| - i
      {
        r := r + [Value(it, i)];
        it := Next(it, i);
        i := i + 1;
      }
    }

    /** The backward walk: -- from the last element until end(). */
    method Backward() returns (r: seq<T>)
      requires Valid()
      ensures r == Reversed(Contents)
    {
      r := [];
      var it := Prev(End(), |nodes|);
      ghost var i := |nodes| - 1;
      while it != End()
        invariant -1 <= i < |nodes| && it == At(i)
        invariant r == Reversed(Contents)[..|nodes| - 1 - i]
        decreases i
      {
        r := r + [Value(it, i)];
        it := Prev(it, i);
        i := i - 1;
      }
    }

    /** push_back(t): link a fresh node between the last element and the anchor. */
    method PushBack(t: T)
      requires Valid()
      modifies this, alloc
      ensures Valid()
      ensures Contents == old(Contents) + [t]
      ensures |nodes| == old(|nodes|) + 1 && nodes[..old(|nodes|)] == old(nodes)
      ensures fresh(nodes[old(|nodes|)])
      ensures Unchanged(old(alloc.next), alloc.next, old(Footprint()))
      ensures Unchanged(old(alloc.prev), alloc.prev, old(Footprint()))
    {
      ghost var s, c := nodes, Contents;
      ghost var N := |s|;
      Linked(anchor, s, alloc.next, alloc.prev, N - 1);
      var n := new Node(t);
      alloc.prev := alloc.prev[n := alloc.prev[anchor]];
      alloc.next := alloc.next[n := anchor];
      alloc.next := alloc.next[alloc.prev[anchor] := n];
      alloc.prev := alloc.prev[anchor := n];
      nodes := nodes + [n];
      Contents := Contents + [t];
      assert nodes == s[..N] + [n] + s[N..];
      assert Contents == c[..N] + [t] + c[N..];
      InsertRing(anchor, s, old(alloc.next), old(alloc.prev), N, n);
      ValuesOne(n, t);
      ValuesSplice(s, c, N, [n], [t]);
    }

    /** push_front(t): link a fresh node between the anchor and the first element. */
    method PushFront(t: T)
      requires Valid()
      modifies this, alloc
      ensures Valid()
      ensures Contents == [t] + old(Contents)
      ensures |nodes| == old(|nodes|) + 1 && nodes[1..] == old(nodes) && fresh(nodes[0])
      ensures Unchanged(old(alloc.next), alloc.next, old(Footprint()))
      ensures Unchanged(old(alloc.prev), alloc.prev, old(Footprint()))
    {
      ghost var s, c := nodes, Contents;
      Linked(anchor, s, alloc.next, alloc.prev, -1);
      var n := new Node(t);
      alloc.next := alloc.next[n := alloc.next[anchor]];
      alloc.prev := alloc.prev[n := anchor];
      alloc.prev := alloc.prev[alloc.next[anchor] := n];
      alloc.next := alloc.next[anchor := n];
      nodes := [n] + nodes;
      Contents := [t] + Contents;
      assert nodes == s[..0] + [n] + s[0..];
      assert Contents == c[..0] + [t] + c[0..];
      InsertRing(anchor, s, old(alloc.next), old(alloc.prev), 0, n);
      ValuesOne(n, t);
      ValuesSplice(s, c, 0, [n], [t]);
    }

    /**
     * pop_back(): unlink the last element and free it.  On an empty list the
     * source would unlink the anchor itself, so a non-empty list is required.
     */
    method PopBack()
      requires Valid() && Contents != []
      modifies this, alloc
      ensures Valid()
      ensures Contents == old(Contents)[..|old(Contents)| - 1]
      ensures nodes == old(nodes)[..|old(nodes)| - 1]
      ensures Unchanged(old(alloc.next), alloc.next, old(Footprint()))
      ensures Unchanged(old(alloc.prev), alloc.prev, old(Footprint()))
    {
      ghost var s, c := nodes, Contents;
      ghost var N := |s|;
      Linked(anchor, s, alloc.next, alloc.prev, N - 1);
      Linked(anchor, s, alloc.next, alloc.prev, N - 2);
      var n := alloc.prev[anchor];
      alloc.next := alloc.next[alloc.prev[n] := anchor];
      alloc.prev := alloc.prev[anchor := alloc.prev[n]];
      alloc.next := alloc.next - {n};
      alloc.prev := alloc.prev - {n};
      nodes := nodes[..N - 1];
      Contents := Contents[..N - 1];
      assert nodes == s[..N - 1] + s[N..];
      assert Contents == c[..N - 1] + c[N..];
      EraseRing(anchor, s, old(alloc.next), old(alloc.prev), N - 1);
      ValuesDrop(s, c, N - 1);
    }

    /** pop_front(): unlink the first element and free it; as pop_back, it needs one. */
    method PopFront()
      requires Valid() && Contents != []
      modifies this, alloc
      ensures Valid()
      ensures Contents == old(Contents)[1..]
      ensures nodes == old(nodes)[1..]
      ensures Unchanged(old(alloc.next), alloc.next, old(Footprint()))
      ensures Unchanged(old(alloc.prev), alloc.prev, old(Footprint()))
    {
      ghost var s, c := nodes, Contents;
      Linked(anchor, s, alloc.next, alloc.prev, -1);
      Linked(anchor, s, alloc.next, alloc.prev, 0);
      var n := alloc.next[anchor];
      alloc.prev := alloc.prev[alloc.next[n] := anchor];
      alloc.next := alloc.next[anchor := alloc.next[n]];
      alloc.next := alloc.next - {n};
      alloc.prev := alloc.prev - {n};
      nodes := nodes[1..];
      Contents := Contents[1..];
      assert nodes == s[..0] + s[1..];
      assert Contents == c[..0] + c[1..];
      EraseRing(anchor, s, old(alloc.next), old(alloc.prev), 0);
      ValuesDrop(s, c, 0);
    }

    /**
     * insert(pos, t): link a fresh node in front of pos, the node at position
     * k (end() when k is the length), and return it.
     */
    method Insert(pos: Node<T>, t: T, ghost k: nat) returns (r: Node<T>)
      requires Valid() && k <= |nodes| && pos == At(k)
      modifies this, alloc
      ensures Valid() && fresh(r)
      ensures Contents == old(Contents)[..k] + [t] + old(Contents)[k..]
      ensures nodes == old(nodes)[..k] + [r] + old(nodes)[k..]
      ensures Unchanged(old(alloc.next), alloc.next, old(Footprint()))
      ensures Unchanged(old(alloc.prev), alloc.prev, old(Footprint()))
    {
      ghost var s, c := nodes, Contents;
      Linked(anchor, s, alloc.next, alloc.prev, k - 1);
      var n := new Node(t);
      var p := pos;
      alloc.prev := alloc.prev[n := alloc.prev[p]];
      alloc.next := alloc.next[n := p];
      alloc.next := alloc.next[alloc.prev[p] := n];
      alloc.prev := alloc.prev[p := n];
      nodes := nodes[..k] + [n] + nodes[k..];
      Contents := Contents[..k] + [t] + Contents[k..];
      r := n;
      InsertRing(anchor, s, old(alloc.next), old(alloc.prev), k, n);
      ValuesOne(n, t);
      ValuesSplice(s, c, k, [n], [t]);
    }

    /**
     * erase(pos): unlink and free the element node pos, at position k, and
     * return the node that followed it.
     */
    method Erase(pos: Node<T>, ghost k: nat) returns (r: Node<T>)
      requires Valid() && k < |nodes| && pos == At(k)
      modifies this, alloc
      ensures Valid()
      ensures Contents == old(Contents)[..k] + old(Contents)[k + 1..]
      ensures nodes == old(nodes)[..k] + old(nodes)[k + 1..]
      ensures r == At(k)
      ensures Unchanged(old(alloc.next), alloc.next, old(Footprint()))
      ensures Unchanged(old(alloc.prev), alloc.prev, old(Footprint()))
    {
      ghost var s, c := nodes, Contents;
      Linked(anchor, s, alloc.next, alloc.prev, k - 1);
      Linked(anchor, s, alloc.next, alloc.prev, k);
      PosDistinct(anchor, s, k - 1, k);
      var n := pos;
      r := alloc.next[pos];
      alloc.next := alloc.next[alloc.prev[n] := alloc.next[n]];
      alloc.prev := alloc.prev[alloc.next[n] := alloc.prev[n]];
      alloc.next := alloc.next - {n};
      alloc.prev := alloc.prev - {n};
      nodes := nodes[..k] + nodes[k + 1..];
      Contents := Contents[..k] + Contents[k + 1..];
      EraseRing(anchor, s, old(alloc.next), old(alloc.prev), k);
      ValuesDrop(s, c, k);
      DropIndex(s, k, nodes);
    }

    /**
     * splice(pos, other): move every node of other, in order, in front of pos,
     * the node at position k, and leave other empty.  The nodes themselves
     * move, so iterators into other now point into this list.  Both lists
     * must use the same allocator, as the source asserts.
     */
    method Splice(pos: Node<T>, other: List<T>, ghost k: nat)
      requires Valid() && other.Valid() && Separate(other) && alloc == other.alloc
      requires k <= |nodes| && pos == At(k)
      modifies this, other, alloc
      ensures Valid() && other.Valid()
      ensures nodes == old(nodes)[..k] + old(other.nodes) + old(nodes)[k..]
      ensures Contents == old(Contents)[..k] + old(other.Contents) + old(Contents)[k..]
      ensures other.nodes == [] && other.Contents == []
      ensures Unchanged(old(alloc.next), alloc.next, old(Footprint()) + old(other.Footprint()))
      ensures Unchanged(old(alloc.prev), alloc.prev, old(Footprint()) + old(other.Footprint()))
    {
      ghost var s, c, o, d := nodes, Contents, other.nodes, other.Contents;
      ghost var M := |o|;
      var p := pos;
      var b := other.anchor;
      Linked(anchor, s, alloc.next, alloc.prev, k - 1);
      Linked(b, o, alloc.next, alloc.prev, -1);
      Linked(b, o, alloc.next, alloc.prev, M - 1);
      var q := alloc.prev[p];
      var f := alloc.next[b];
      alloc.next := alloc.next[q := f];
      alloc.prev := alloc.prev[f := q];
      var l := alloc.prev[b];
      alloc.prev := alloc.prev[p := l];
      alloc.next := alloc.next[l := p];
      alloc.prev := alloc.prev[b := b];
      alloc.next := alloc.next[b := b];
      nodes := s[..k] + o + s[k..];
      Contents := c[..k] + d + c[k..];
      other.nodes := [];
      other.Contents := [];
      SpliceRing(anchor, s, b, o, old(alloc.next), old(alloc.prev), k, q, p, f, l);
      ValuesSplice(s, c, k, o, d);
    }

    /** Separate lists own disjoint sets of links. */
    lemma Apart(other: List<T>)
      requires Separate(other)
      ensures Footprint() !! other.Footprint()
    {
    }
  }

  /** push_back on one list of a shared allocator leaves a second list on it intact. */
  method PushBackBeside<T(0)>(list: List<T>, other: List<T>, t: T)
    requires list.Valid() && other.Valid() && list.Separate(other) && list.alloc == other.alloc
    modifies list, list.alloc
    ensures list.Valid() && other.Valid() && list.Separate(other)
    ensures list.Contents == old(list.Contents) + [t]
  {
    ghost var fp, n, p := list.Footprint(), list.alloc.next, list.alloc.prev;
    list.Apart(other);
    list.PushBack(t);
    RingFrame(other.anchor, other.nodes, n, p, list.alloc.next, list.alloc.prev, fp);
  }

  /** push_front on one list of a shared allocator leaves a second list on it intact. */
  method PushFrontBeside<T(0)>(list: List<T>, other: List<T>, t: T)
    requires list.Valid() && other.Valid() && list.Separate(other) && list.alloc == other.alloc
    modifies list, list.alloc
    ensures list.Valid() && other.Valid() && list.Separate(other)
    ensures list.Contents == [t] + old(list.Contents)
  {
    ghost var fp, n, p := list.Footprint(), list.alloc.next, list.alloc.prev;
    list.Apart(other);
    list.PushFront(t);
    RingFrame(other.anchor, other.nodes, n, p, list.alloc.next, list.alloc.prev, fp);
  }

  /**
   * The start of the list test: three push_back calls on one list and four
   * push_front calls on a second one, both on one allocator.
   */
  method BuildTestLists() returns (list: List<int>, list2: List<int>)
    ensures fresh(list) && fresh(list2) && fresh(list.alloc) && list.alloc == list2.alloc
    ensures list.Valid() && list2.Valid() && list.Separate(list2)
    ensures list.Contents == [0, 1, 2] && list2.Contents == [9, 4, 5, 6]
  {
    var alloc := new Allocator<int>();
    list := new List<int>(alloc);
    ghost var n, p := alloc.next, alloc.prev;
    list2 := new List<int>(alloc);
    RingFrame(list.anchor, list.nodes, n, p, alloc.next, alloc.prev, {list2.anchor});
    PushBackBeside(list, list2, 0);
    PushBackBeside(list, list2, 1);
    PushBackBeside(list, list2, 2);
    PushFrontBeside(list2, list, 6);
    PushFrontBeside(list2, list, 5);
    PushFrontBeside(list2, list, 4);
    PushFrontBeside(list2, list, 9);
  }

  /** The backward walk over the test's final list, written out. */
  lemma ReversedTestList(r: seq<int>)
    requires r == Reversed([0, 1, 2, 3, 4, 5, 6])
    ensures r == [6, 5, 4, 3, 2, 1, 0]
  {
    assert r[0] == 6 && r[1] == 5 && r[2] == 4 && r[3] == 3;
    assert r[4] == 2 && r[5] == 1 && r[6] == 0;
  }

  /**
   * The middle of the list test: the second list is spliced at the end of
   * the first, 3 is inserted before the first spliced element and that
   * element, 9, is erased.
   */
  method SpliceTestLists() returns (list: List<int>, otherEmpty: bool, listEmpty: bool)
    ensures fresh(list) && fresh(list.alloc)
    ensures list.Valid() && list.Contents == [0, 1, 2, 3, 4, 5, 6]
    ensures otherEmpty && !listEmpty
  {
    var list2;
    list, list2 := BuildTestLists();
    var pos := list2.Begin();
    var dstpos := list.End();
    list.Splice(dstpos, list2, 3);
    otherEmpty := list2.Empty();
    listEmpty := list.Empty();
    assert list.Contents == [0, 1, 2, 9, 4, 5, 6];
    var ins := list.Insert(pos, 3, 3);
    assert list.Contents == [0, 1, 2, 3, 9, 4, 5, 6];
    var next := list.Erase(pos, 4);
  }

  /**
   * The list test: after the splice, insert and erase the forward walk
   * yields 0 .. 6 and the backward walk 6 .. 0; pop_front and pop_back
   * then leave 1 at the front and 5 at the back.
   */
  method ListScenario() returns (otherEmpty: bool, listEmpty: bool, forward: seq<int>,
                                 backward: seq<int>, finalEmpty: bool, front: int, back: int)
    ensures otherEmpty && !listEmpty
    ensures forward == [0, 1, 2, 3, 4, 5, 6] && backward == [6, 5, 4, 3, 2, 1, 0]
    ensures !finalEmpty && front == 1 && back == 5
  {
    var list;
    list, otherEmpty, listEmpty := SpliceTestLists();
    forward := list.Forward();
    backward := list.Backward();
    ReversedTestList(backward);
    list.PopFront();
    list.PopBack();
    finalEmpty := list.Empty();
    front := list.Front();
    back := list.Back();
  }
}
