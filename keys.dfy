/**
 * The contents of a set as the sequence of its keys in increasing order,
 * and what set::insert and set::erase(key) of include/taapp/set.h do to
 * that sequence.  Two keys are the same element when neither is less than
 * the other under the set's Compare.
 */
module SortedKeys {
  import opened Orders

  ghost predicate LessAt<K>(less: (K, K) -> bool, s: seq<K>, i: int, j: int)
    requires 0 <= i < |s| && 0 <= j < |s|
  {
    less(s[i], s[j])
  }

  /** Strictly increasing under the comparator: no two keys are equivalent. */
  ghost predicate Sorted<K>(less: (K, K) -> bool, s: seq<K>)
  {
    forall i, j {:trigger LessAt(less, s, i, j)} :: 0 <= i < j < |s| ==> LessAt(less, s, i, j)
  }

  /** Some key of s is equivalent to k. */
  ghost predicate Contains<K>(less: (K, K) -> bool, s: seq<K>, k: K)
  {
    exists i :: 0 <= i < |s| && Equiv(less, s[i], k)
  }

  /** Every key of s is less than k. */
  ghost predicate Below<K>(less: (K, K) -> bool, s: seq<K>, k: K)
  {
    forall i :: 0 <= i < |s| ==> less(s[i], k)
  }

  /** k is less than every key of s. */
  ghost predicate Above<K>(less: (K, K) -> bool, s: seq<K>, k: K)
  {
    forall i :: 0 <= i < |s| ==> less(k, s[i])
  }

  /** insert: k goes to its place in the order, unless an equivalent key is there already. */
  function Insertion<K>(less: (K, K) -> bool, s: seq<K>, k: K): seq<K>
  {
    if s == [] then [k]
    else if less(s[0], k) then [s[0]] + Insertion(less, s[1..], k)
    else if less(k, s[0]) then [k] + s
    else s
  }

  /** erase(key): the key equivalent to k, if any, goes. */
  function Deletion<K>(less: (K, K) -> bool, s: seq<K>, k: K): seq<K>
  {
    if s == [] then []
    else if Equiv(less, s[0], k) then s[1..]
    else [s[0]] + Deletion(less, s[1..], k)
  }

  lemma SortedTail<K>(less: (K, K) -> bool, s: seq<K>)
    requires Sorted(less, s) && s != []
    ensures Sorted(less, s[1..])
  {
    forall i, j | 0 <= i < j < |s[1..]|
      ensures LessAt(less, s[1..], i, j)
    {
      assert LessAt(less, s, i + 1, j + 1);
    }
  }

  /** A key below the first key of a sorted sequence is below all of it. */
  lemma SortedAbove<K(!new)>(less: (K, K) -> bool, s: seq<K>, k: K)
    requires StrictWeakOrder(less) && Sorted(less, s) && s != [] && less(k, s[0])
    ensures Above(less, s, k)
  {
    forall i | 0 <= i < |s|
      ensures less(k, s[i])
    {
      if i > 0 {
        assert LessAt(less, s, 0, i);
        assert TransitiveAt(less, k, s[0], s[i]);
      }
    }
  }

  /** Nothing equivalent to k lies strictly above or below it. */
  lemma AboveAbsent<K>(less: (K, K) -> bool, s: seq<K>, k: K)
    requires Above(less, s, k) || Below(less, s, k)
    ensures !Contains(less, s, k)
  {
    forall i | 0 <= i < |s|
      ensures !Equiv(less, s[i], k)
    {
    }
  }

  /** insert keeps the sequence strictly increasing. */
  lemma {:induction false} InsertionSorted<K(!new)>(less: (K, K) -> bool, s: seq<K>, k: K)
    requires StrictWeakOrder(less) && Sorted(less, s)
    ensures Sorted(less, Insertion(less, s, k))
    ensures Insertion(less, s, k) != [] && (s != [] ==> Insertion(less, s, k)[0] == s[0] || Insertion(less, s, k)[0] == k)
    decreases |s|
  {
    if s != [] {
      if less(s[0], k) {
        SortedTail(less, s);
        InsertionSorted(less, s[1..], k);
        var t := Insertion(less, s[1..], k);
        var r := [s[0]] + t;
        forall i, j | 0 <= i < j < |r|
          ensures LessAt(less, r, i, j)
        {
          if i == 0 {
            if s[1..] != [] && t[0] == s[1..][0] {
              assert LessAt(less, s, 0, 1);
            }
            if j > 1 {
              assert LessAt(less, t, 0, j - 1);
              assert TransitiveAt(less, s[0], t[0], t[j - 1]);
            }
          } else {
            assert LessAt(less, t, i - 1, j - 1);
          }
        }
      } else if less(k, s[0]) {
        var r := [k] + s;
        forall i, j | 0 <= i < j < |r|
          ensures LessAt(less, r, i, j)
        {
          if i == 0 {
            if j > 1 {
              assert LessAt(less, s, 0, j - 1);
              assert TransitiveAt(less, k, s[0], s[j - 1]);
            }
          } else {
            assert LessAt(less, s, i - 1, j - 1);
          }
        }
      }
    }
  }

  /** insert of an absent key adds exactly that key. */
  lemma {:induction false} InsertionAbsent<K>(less: (K, K) -> bool, s: seq<K>, k: K)
    requires !Contains(less, s, k)
    ensures multiset(Insertion(less, s, k)) == multiset(s) + multiset{k}
    decreases |s|
  {
    if s != [] {
      assert !Equiv(less, s[0], k);
      if less(s[0], k) {
        forall i | 0 <= i < |s[1..]|
          ensures !Equiv(less, s[1..][i], k)
        {
          assert s[1..][i] == s[i + 1];
        }
        InsertionAbsent(less, s[1..], k);
        assert s == [s[0]] + s[1..];
      }
    }
  }

  /** insert of a key already there (up to equivalence) changes nothing. */
  lemma {:induction false} InsertionPresent<K(!new)>(less: (K, K) -> bool, s: seq<K>, k: K)
    requires StrictWeakOrder(less) && Sorted(less, s) && Contains(less, s, k)
    ensures Insertion(less, s, k) == s
    decreases |s|
  {
    var i :| 0 <= i < |s| && Equiv(less, s[i], k);
    if less(s[0], k) {
      assert i != 0;
      SortedTail(less, s);
      assert Equiv(less, s[1..][i - 1], k);
      InsertionPresent(less, s[1..], k);
      assert s == [s[0]] + s[1..];
    } else if less(k, s[0]) {
      SortedAbove(less, s, k);
      AboveAbsent(less, s, k);
    }
  }

  /** Placing k between the keys below it and the keys above it is insert. */
  lemma {:induction false} InsertionSplit<K(!new)>(less: (K, K) -> bool, a: seq<K>, b: seq<K>, k: K)
    requires StrictWeakOrder(less) && Below(less, a, k) && Above(less, b, k)
    ensures Insertion(less, a + b, k) == a + [k] + b
    decreases |a|
  {
    if a == [] {
      assert a + b == b;
      if b != [] {
        Asymmetric(less, k, b[0]);
      }
    } else {
      assert (a + b)[0] == a[0];
      assert (a + b)[1..] == a[1..] + b;
      InsertionSplit(less, a[1..], b, k);
      assert a == [a[0]] + a[1..];
    }
  }

  /** erase(key) of an absent key changes nothing. */
  lemma {:induction false} DeletionAbsent<K>(less: (K, K) -> bool, s: seq<K>, k: K)
    requires !Contains(less, s, k)
    ensures Deletion(less, s, k) == s
    decreases |s|
  {
    if s != [] {
      assert !Equiv(less, s[0], k);
      forall i | 0 <= i < |s[1..]|
        ensures !Equiv(less, s[1..][i], k)
      {
        assert s[1..][i] == s[i + 1];
      }
      DeletionAbsent(less, s[1..], k);
      assert s == [s[0]] + s[1..];
    }
  }

  /** Deletion takes out the first key equivalent to k. */
  lemma {:induction false} DeletionFirst<K>(less: (K, K) -> bool, s: seq<K>, i: nat, k: K)
    requires i < |s| && Equiv(less, s[i], k)
    requires forall j :: 0 <= j < i ==> !Equiv(less, s[j], k)
    ensures Deletion(less, s, k) == s[..i] + s[i + 1..]
    decreases i
  {
    if i > 0 {
      assert !Equiv(less, s[0], k);
      forall j | 0 <= j < i - 1
        ensures !Equiv(less, s[1..][j], k)
      {
        assert s[1..][j] == s[j + 1];
      }
      assert s[1..][i - 1] == s[i];
      DeletionFirst(less, s[1..], i - 1, k);
      assert s[..i] == [s[0]] + s[1..][..i - 1];
      assert s[i + 1..] == s[1..][i..];
    }
  }

  /** erase(key) takes out the one key equivalent to k, at its index. */
  lemma DeletionSplit<K(!new)>(less: (K, K) -> bool, s: seq<K>, i: nat, k: K)
    requires StrictWeakOrder(less) && Sorted(less, s) && i < |s| && Equiv(less, s[i], k)
    ensures Deletion(less, s, k) == s[..i] + s[i + 1..]
  {
    forall j | 0 <= j < i
      ensures !Equiv(less, s[j], k)
    {
      assert LessAt(less, s, j, i);
      assert EquivTransitiveAt(less, s[j], k, s[i]);
    }
    DeletionFirst(less, s, i, k);
  }

  /** Taking one key out of a strictly increasing sequence leaves it strictly increasing. */
  lemma RemovedSorted<K>(less: (K, K) -> bool, s: seq<K>, i: nat, r: seq<K>)
    requires Sorted(less, s) && i < |s| && r == s[..i] + s[i + 1..]
    ensures Sorted(less, r)
  {
    forall a, b | 0 <= a < b < |r|
      ensures LessAt(less, r, a, b)
    {
      var a', b' := if a < i then a else a + 1, if b < i then b else b + 1;
      assert r[a] == s[a'] && r[b] == s[b'];
      assert LessAt(less, s, a', b');
    }
  }

  /** In a strictly increasing sequence, only the key at i is equivalent to s[i]. */
  lemma RemovedExcludes<K(!new)>(less: (K, K) -> bool, s: seq<K>, i: nat, k: K)
    requires StrictWeakOrder(less) && Sorted(less, s) && i < |s| && Equiv(less, s[i], k)
    ensures !Contains(less, s[..i] + s[i + 1..], k)
  {
    var r := s[..i] + s[i + 1..];
    forall j | 0 <= j < |r|
      ensures !Equiv(less, r[j], k)
    {
      var j' := if j < i then j else j + 1;
      assert r[j] == s[j'];
      if j' < i {
        assert LessAt(less, s, j', i);
      } else {
        assert LessAt(less, s, i, j');
      }
      assert EquivTransitiveAt(less, s[j'], k, s[i]);
    }
  }

  lemma RemovedCount<K>(s: seq<K>, i: nat, r: seq<K>)
    requires i < |s| && r == s[..i] + s[i + 1..]
    ensures multiset(r) < multiset(s) && |r| == |s| - 1
  {
    assert s == s[..i] + [s[i]] + s[i + 1..];
    assert multiset(s) == multiset(r) + multiset{s[i]};
  }

  /** After erase(key), no key equivalent to k is left, and the sequence stays strictly increasing. */
  lemma DeletionSorted<K(!new)>(less: (K, K) -> bool, s: seq<K>, k: K)
    requires StrictWeakOrder(less) && Sorted(less, s)
    ensures Sorted(less, Deletion(less, s, k)) && !Contains(less, Deletion(less, s, k), k)
    ensures Contains(less, s, k) ==> multiset(Deletion(less, s, k)) < multiset(s) && |Deletion(less, s, k)| == |s| - 1
  {
    if Contains(less, s, k) {
      var i :| 0 <= i < |s| && Equiv(less, s[i], k);
      DeletionSplit(less, s, i, k);
      RemovedSorted(less, s, i, s[..i] + s[i + 1..]);
      RemovedExcludes(less, s, i, k);
      RemovedCount(s, i, s[..i] + s[i + 1..]);
    } else {
      DeletionAbsent(less, s, k);
    }
  }
}
