/**
 * The dynamic array of include/taapp/vector.h.
 *
 * The C++ container keeps three pointers, begin_, end_ and capacity_, into
 * one heap buffer.  Here the buffer is an `array<T>` whose length is the
 * capacity and `size` is end_ - begin_.  A container that has never
 * allocated holds a buffer of length 0 (begin_ == NULL).  Reallocation
 * copies the live prefix into a fresh, larger buffer element by element.
 */
module Vectors {

  /** increment_capacity: the growth rule applied when the buffer is full. */
  function IncrementCapacity(c: nat): (r: nat)
    ensures r > c
    ensures c == 0 ==> r == 8
    ensures 0 < c < 64 ==> r == 2 * c
    ensures c >= 64 ==> r == c + 64
  {
    if c < 64 then (if c == 0 then 8 else c * 2) else c + 64
  }

  /** The capacity resize() asks for when `n` exceeds the capacity `c`. */
  function GrownCapacity(c: nat, n: nat): (r: nat)
    ensures r >= n && r >= IncrementCapacity(c) && r > c
    ensures r == IncrementCapacity(c) || r == n
  {
    if IncrementCapacity(c) < n then n else IncrementCapacity(c)
  }

  function Min(a: nat, b: nat): nat { if a < b then a else b }

  class Vector<T(0)> {
    var data: array<T>
    var size: nat

    ghost predicate Valid()
      reads this
    {
      size <= data.Length
    }

    /** The live elements begin_[0 .. size). */
    ghost function Elements(): (s: seq<T>)
      reads this, data
      requires Valid()
      ensures |s| == size
    {
      data[..size]
    }

    /** capacity(): the buffer's length, never below the size. */
    function Capacity(): (r: nat)
      reads this
      ensures Valid() ==> size <= r
    {
      data.Length
    }

    constructor ()
      ensures Valid() && fresh(data)
      ensures Elements() == [] && Capacity() == 0
    {
      data := new T[0];
      size := 0;
    }

    function Size(): (r: nat)
      reads this, data
      requires Valid()
      ensures r == |Elements()|
    {
      size
    }

    function Empty(): (r: bool)
      reads this, data
      requires Valid()
      ensures r <==> Elements() == []
    {
      size == 0
    }

    /** operator[]: the index is checked by an assertion in the source. */
    function Get(i: nat): (r: T)
      reads this, data
      requires Valid() && i < size
      ensures r == Elements()[i]
    {
      data[i]
    }

    function Front(): (r: T)
      reads this, data
      requires Valid() && size > 0
      ensures r == Elements()[0]
    {
      data[0]
    }

    function Back(): (r: T)
      reads this, data
      requires Valid() && size > 0
      ensures r == Elements()[|Elements()| - 1]
    {
      data[size - 1]
    }

    /** reallocate: move the live elements into a fresh buffer of newCapacity. */
    method Reallocate(newCapacity: nat)
      requires Valid() && size <= newCapacity
      modifies this
      ensures Valid() && fresh(data)
      ensures Elements() == old(Elements())
      ensures Capacity() == newCapacity
    {
      var buffer := new T[newCapacity];
      var i := 0;
      while i < size
        modifies buffer
        invariant 0 <= i <= size
        invariant buffer[..i] == data[..i]
      {
        buffer[i] := data[i];
        i := i + 1;
      }
      data := buffer;
    }

    method PushBack(t: T)
      requires Valid()
      modifies this, data
      ensures Valid()
      ensures Elements() == old(Elements()) + [t]
      ensures Capacity() == if old(size) == old(data.Length)
                            then IncrementCapacity(old(data.Length)) else old(data.Length)
      ensures old(size) < old(data.Length) ==> data == old(data)
      ensures data == old(data) || fresh(data)
    {
      if size == data.Length {
        Reallocate(IncrementCapacity(data.Length));
      }
      data[size] := t;
      size := size + 1;
    }

    method PopBack()
      requires Valid() && size > 0
      modifies this
      ensures Valid() && data == old(data)
      ensures Elements() == old(Elements())[..old(size) - 1]
    {
      size := size - 1;
    }

    method Clear()
      requires Valid()
      modifies this
      ensures Valid() && data == old(data)
      ensures Elements() == []
    {
      size := 0;
    }

    method Reserve(c: nat)
      requires Valid()
      modifies this
      ensures Valid()
      ensures Elements() == old(Elements())
      ensures Capacity() == if c > old(data.Length) then c else old(data.Length)
      ensures c <= old(data.Length) ==> data == old(data)
      ensures data == old(data) || fresh(data)
    {
      if c > data.Length {
        Reallocate(c);
      }
    }

    /**
     * resize(n): the elements beyond the old size are default-constructed in
     * the source; their values are left unspecified here.
     */
    method Resize(n: nat)
      requires Valid()
      modifies this
      ensures Valid() && size == n
      ensures Elements()[..Min(n, old(size))] == old(Elements())[..Min(n, old(size))]
      ensures Capacity() == if n > old(data.Length)
                            then GrownCapacity(old(data.Length), n) else old(data.Length)
      ensures n <= old(data.Length) ==> data == old(data)
      ensures data == old(data) || fresh(data)
    {
      if n > data.Length {
        Reallocate(GrownCapacity(data.Length, n));
      }
      size := n;
    }

    /** resize(n, t): the new elements are copies of t. */
    method ResizeFill(n: nat, t: T)
      requires Valid()
      modifies this, data
      ensures Valid() && size == n
      ensures Elements() == if n <= old(size) then old(Elements())[..n]
                            else old(Elements()) + seq(n - old(size), _ => t)
      ensures Capacity() == if n > old(data.Length)
                            then GrownCapacity(old(data.Length), n) else old(data.Length)
      ensures n <= old(data.Length) ==> data == old(data)
      ensures data == old(data) || fresh(data)
    {
      if n > data.Length {
        Reallocate(GrownCapacity(data.Length, n));
      }
      var i := size;
      while i < n
        modifies data
        invariant size <= data.Length && n <= data.Length
        invariant size <= i <= n || (n < size && i == size)
        invariant data[..size] == old(Elements())
        invariant forall j :: size <= j < i ==> data[j] == t
      {
        data[i] := t;
        i := i + 1;
      }
      ghost var was := old(Elements());
      if n > size {
        assert data[..n] == was + seq(n - |was|, _ => t);
      }
      size := n;
    }

    /**
     * erase(it): the element at `it` is dropped and every later element moves
     * one slot to the left; the returned position is `it` itself.
     */
    method Erase(it: nat) returns (r: nat)
      requires Valid() && it < size
      modifies this, data
      ensures Valid() && data == old(data)
      ensures Elements() == old(Elements())[..it] + old(Elements())[it + 1..]
      ensures r == it
    {
      ghost var was := Elements();
      size := size - 1;
      var i := it;
      while i != size
        modifies data
        invariant size + 1 == |was| <= data.Length
        invariant it <= i <= size
        invariant forall j :: 0 <= j < it ==> data[j] == was[j]
        invariant forall j :: it <= j < i ==> data[j] == was[j + 1]
        invariant forall j :: i < j <= size ==> data[j] == was[j]
      {
        data[i] := data[i + 1];
        i := i + 1;
      }
      r := it;
    }

    /**
     * insert(pos, t): grows the size by one through resize(size() + 1), moves
     * the elements from pos on one slot to the right and stores t at pos.
     */
    method Insert(pos: nat, t: T) returns (r: nat)
      requires Valid() && pos <= size
      modifies this, data
      ensures Valid()
      ensures Elements() == old(Elements())[..pos] + [t] + old(Elements())[pos..]
      ensures r == pos
      ensures Capacity() == if old(size) == old(data.Length)
                            then IncrementCapacity(old(data.Length)) else old(data.Length)
      ensures data == old(data) || fresh(data)
    {
      ghost var was := Elements();
      Resize(size + 1);
      assert Elements()[..|was|] == was;
      forall j | 0 <= j < |was|
        ensures data[j] == was[j]
      {
        assert Elements()[..|was|][j] == data[j];
      }
      var i := size - 1;
      while i != pos
        modifies data
        invariant size == |was| + 1 <= data.Length
        invariant pos <= i < size
        invariant forall j :: 0 <= j < i ==> data[j] == was[j]
        invariant forall j :: i < j < size ==> data[j] == was[j - 1]
      {
        data[i] := data[i - 1];
        i := i - 1;
      }
      data[pos] := t;
      ghost var want := was[..pos] + [t] + was[pos..];
      forall j | 0 <= j < size
        ensures data[j] == want[j]
      {
        if j < pos {
          assert want[j] == was[j];
        } else if j > pos {
          assert want[j] == was[j - 1];
        }
      }
      assert Elements() == want;
      r := pos;
    }
  }
}
