/**
 * The separate-chaining hash map of include/taapp/unordered_map.h.
 *
 * The C++ table is a buffer of `numbuckets_` bucket heads, each the anchor
 * of a circular doubly linked chain of nodes.  Here the buffer is an
 * `array` whose length is numbuckets_ and each slot holds its chain as a
 * sequence, front node first; a table that has never allocated is an array
 * of length 0 (buckets_ == NULL).  The hash functor is the parameter
 * `hash` and the key predicate Pred is key equality.  The ghost map
 * `Contents` is what the table stores.
 */
module UnorderedMaps {

  /** pair<Key, T>: the stored value_type. */
  datatype Pair<K, V> = Pair(first: K, second: V)

  /**
   * An iterator: `End` is the iterator whose node_ is NULL; `At(b, i)` is
   * the node at index i of bucket b's chain.  The bucketend_ pointer is the
   * table's length.
   */
  datatype Iterator = End | At(bucket: nat, index: nat)

  /** The static table of calc_table_size. */
  const Primes: seq<nat> := [
           13,         31,         61,        127,        251,
          509,       1021,       2039,       4093,       8191,
        16381,      32749,      65521,     131071,     262139,
       524287,    1048573,    2097143,    4194301,    8388593,
     16777199,   33554393,   67108859,  134217689,  201326611,
    402653189,  805306457, 1610612741]

  /** The entry calc_table_size stops at: the first one, from index i, that is at least s, or the last. */
  function TableSizeFrom(s: nat, i: nat): nat
    requires i < |Primes|
    decreases |Primes| - i
  {
    if i == |Primes| - 1 || Primes[i] >= s then Primes[i] else TableSizeFrom(s, i + 1)
  }

  function TableSize(s: nat): nat
  {
    TableSizeFrom(s, 0)
  }

  /**
   * TableSize(s) is the smallest table entry that is at least s, and the
   * last entry when s exceeds them all.
   */
  lemma {:induction false} TableSizeLeast(s: nat)
    ensures TableSize(s) in Primes
    ensures s <= Primes[|Primes| - 1] ==> s <= TableSize(s)
    ensures forall i :: 0 <= i < |Primes| && s <= Primes[i] ==> TableSize(s) <= Primes[i]
    ensures s > Primes[|Primes| - 1] ==> TableSize(s) == Primes[|Primes| - 1]
  {
    var i := 0;
    while i < |Primes| - 1 && Primes[i] < s
      invariant 0 <= i < |Primes|
      invariant TableSizeFrom(s, i) == TableSize(s)
      invariant forall j :: 0 <= j < i ==> Primes[j] < s
    {
      i := i + 1;
    }
    assert TableSize(s) == Primes[i];
    forall j | 0 <= j < |Primes| && s <= Primes[j]
      ensures Primes[i] <= Primes[j]
    {
      assert i <= j;
      PrimesAscending(i, j);
    }
  }

  lemma PrimesAscending(i: nat, j: nat)
    requires i <= j < |Primes|
    ensures Primes[i] <= Primes[j]
  {
  }

  /** calc_table_size: the scan of the static table. */
  method CalcTableSize(s: nat) returns (r: nat)
    ensures r == TableSize(s)
    ensures r in Primes && (s <= Primes[|Primes| - 1] ==> s <= r)
  {
    var i := 0;
    while i != |Primes| - 1
      invariant 0 <= i < |Primes|
      invariant TableSizeFrom(s, i) == TableSize(s)
    {
      if Primes[i] >= s {
        break;
      }
      i := i + 1;
    }
    r := Primes[i];
    TableSizeLeast(s);
  }

  /** The node at index i of bucket b sits in the bucket its key hashes to and carries its key's value. */
  ghost predicate EntryOk<K, V>(bs: seq<seq<Pair<K, V>>>, hash: K -> nat, m: map<K, V>, b: int, i: int)
  {
    0 <= b < |bs| && 0 <= i < |bs[b]| ==>
      hash(bs[b][i].first) % |bs| == b && bs[b][i].first in m && m[bs[b][i].first] == bs[b][i].second
  }

  /** A stored key has its node in the bucket it hashes to. */
  ghost predicate KeyOk<K, V>(bs: seq<seq<Pair<K, V>>>, hash: K -> nat, m: map<K, V>, k: K)
  {
    k in m ==> |bs| > 0 && Pair(k, m[k]) in bs[hash(k) % |bs|]
  }

  /** No key occurs twice in one chain. */
  ghost predicate UniqueKeys<K, V>(c: seq<Pair<K, V>>)
  {
    forall i, j :: 0 <= i < j < |c| ==> c[i].first != c[j].first
  }

  ghost predicate ChainOk<K, V>(bs: seq<seq<Pair<K, V>>>, b: int)
  {
    0 <= b < |bs| ==> UniqueKeys(bs[b])
  }

  /** The buckets bs, under hash, store exactly the map m, one node per key. */
  ghost predicate Table<K, V>(bs: seq<seq<Pair<K, V>>>, hash: K -> nat, m: map<K, V>)
  {
    (forall b, i {:trigger EntryOk(bs, hash, m, b, i)} :: EntryOk(bs, hash, m, b, i))
    && (forall b {:trigger ChainOk(bs, b)} :: ChainOk(bs, b))
    && (forall k {:trigger KeyOk(bs, hash, m, k)} :: k in m ==> KeyOk(bs, hash, m, k))
  }

  /** bucket_push keeps the table: the new node, for an absent key, goes to the front of its bucket. */
  lemma PushKeeps<K, V>(bs: seq<seq<Pair<K, V>>>, hash: K -> nat, m: map<K, V>, e: Pair<K, V>)
    requires Table(bs, hash, m) && |bs| > 0 && e.first !in m
    ensures Table(bs[hash(e.first) % |bs| := [e] + bs[hash(e.first) % |bs|]], hash, m[e.first := e.second])
  {
    var h := hash(e.first) % |bs|;
    var t: seq<seq<Pair<K, V>>> := bs[h := [e] + bs[h]];
    var m': map<K, V> := m[e.first := e.second];
    forall b: int, i: int
      ensures EntryOk(t, hash, m', b, i)
    {
      if 0 <= b < |t| && 0 <= i < |t[b]| {
        if b != h {
          assert EntryOk(bs, hash, m, b, i);
        } else if i > 0 {
          assert t[b][i] == bs[b][i - 1];
          assert EntryOk(bs, hash, m, b, i - 1);
        }
      }
    }
    forall b: int
      ensures ChainOk(t, b)
    {
      assert ChainOk(bs, b);
      if b == h {
        forall i, j | 0 <= i < j < |t[b]|
          ensures t[b][i].first != t[b][j].first
        {
          assert t[b][j] == bs[b][j - 1];
          assert EntryOk(bs, hash, m, b, j - 1);
          if i > 0 {
            assert t[b][i] == bs[b][i - 1];
          }
        }
      }
    }
    forall k | k in m'
      ensures KeyOk(t, hash, m', k)
    {
      if k != e.first {
        assert KeyOk(bs, hash, m, k);
      }
    }
  }

  /** bucket_erase keeps the table: the unlinked node's key leaves the map. */
  lemma EraseKeeps<K, V>(bs: seq<seq<Pair<K, V>>>, hash: K -> nat, m: map<K, V>, b: nat, i: nat)
    requires Table(bs, hash, m) && b < |bs| && i < |bs[b]|
    ensures Table(bs[b := bs[b][..i] + bs[b][i + 1..]], hash, m - {bs[b][i].first})
  {
    var c := bs[b];
    var key := c[i].first;
    var c' := c[..i] + c[i + 1..];
    var t: seq<seq<Pair<K, V>>> := bs[b := c'];
    var m': map<K, V> := m - {key};
    assert forall j :: 0 <= j < |c'| ==> c'[j] == if j < i then c[j] else c[j + 1];
    assert ChainOk(bs, b);
    assert EntryOk(bs, hash, m, b, i);
    forall x: int, j: int
      ensures EntryOk(t, hash, m', x, j)
    {
      if 0 <= x < |t| && 0 <= j < |t[x]| {
        if x != b {
          assert EntryOk(bs, hash, m, x, j);
        } else if j < i {
          assert EntryOk(bs, hash, m, x, j);
          assert c[j].first != c[i].first;
        } else {
          assert EntryOk(bs, hash, m, x, j + 1);
          assert c[i].first != c[j + 1].first;
        }
      }
    }
    forall x: int
      ensures ChainOk(t, x)
    {
      assert ChainOk(bs, x);
    }
    forall k | k in m'
      ensures KeyOk(t, hash, m', k)
    {
      assert KeyOk(bs, hash, m, k);
      var p := Pair(k, m[k]);
      if hash(k) % |bs| == b {
        var j :| 0 <= j < |c| && c[j] == p;
        assert j != i;
        if j < i {
          assert c'[j] == p;
        } else {
          assert c'[j - 1] == p;
        }
      }
    }
  }

  /** An empty table of any size stores nothing. */
  lemma EmptyTable<K, V>(bs: seq<seq<Pair<K, V>>>, hash: K -> nat)
    requires forall b :: 0 <= b < |bs| ==> bs[b] == []
    ensures Table(bs, hash, map[])
  {
    forall b: int
      ensures ChainOk(bs, b)
    {
    }
  }

  /** The nodes of all chains, bucket by bucket, each chain front first: the iteration order. */
  ghost function Flatten<K, V>(bs: seq<seq<Pair<K, V>>>): seq<Pair<K, V>>
  {
    if bs == [] then [] else bs[0] + Flatten(bs[1..])
  }

  lemma {:induction false} FlattenAppend<K, V>(a: seq<seq<Pair<K, V>>>, c: seq<seq<Pair<K, V>>>)
    ensures Flatten(a + c) == Flatten(a) + Flatten(c)
  {
    if a == [] {
      assert a + c == c;
    } else {
      assert (a + c)[0] == a[0];
      assert (a + c)[1..] == a[1..] + c;
      FlattenAppend(a[1..], c);
    }
  }

  /** Flattening one more bucket appends its chain. */
  lemma FlattenStep<K, V>(bs: seq<seq<Pair<K, V>>>, b: nat)
    requires b < |bs|
    ensures Flatten(bs[..b + 1]) == Flatten(bs[..b]) + bs[b]
  {
    assert bs[..b + 1] == bs[..b] + [bs[b]];
    FlattenAppend(bs[..b], [bs[b]]);
    assert Flatten([bs[b]]) == bs[b] + Flatten([]);
  }

  /** The node at index i of bucket b is the Rank-th node of the iteration. */
  lemma FlattenAt<K, V>(bs: seq<seq<Pair<K, V>>>, b: nat, i: nat)
    requires b < |bs| && i < |bs[b]|
    ensures |Flatten(bs[..b])| + i < |Flatten(bs)|
    ensures Flatten(bs)[|Flatten(bs[..b])| + i] == bs[b][i]
  {
    assert bs == bs[..b + 1] + bs[b + 1..];
    FlattenAppend(bs[..b + 1], bs[b + 1..]);
    FlattenStep(bs, b);
  }

  ghost function KeysOf<K, V>(s: seq<Pair<K, V>>): set<K>
  {
    set x | x in s :: x.first
  }

  /** A sequence without a repeated key has as many nodes as keys. */
  lemma {:induction false} DistinctCount<K, V>(s: seq<Pair<K, V>>)
    requires UniqueKeys(s)
    ensures |KeysOf(s)| == |s|
  {
    if s != [] {
      assert UniqueKeys(s[1..]) by {
        forall i, j | 0 <= i < j < |s[1..]|
          ensures s[1..][i].first != s[1..][j].first
        {
          assert s[1..][i] == s[i + 1] && s[1..][j] == s[j + 1];
        }
      }
      DistinctCount(s[1..]);
      assert KeysOf(s) == {s[0].first} + KeysOf(s[1..]);
      assert s[0].first !in KeysOf(s[1..]);
    }
  }

  /** Two sequences without repeated keys and without a shared key concatenate to one. */
  lemma UniqueConcat<K, V>(a: seq<Pair<K, V>>, c: seq<Pair<K, V>>)
    requires UniqueKeys(a) && UniqueKeys(c)
    requires forall x, y :: x in a && y in c ==> x.first != y.first
    ensures UniqueKeys(a + c)
  {
    forall i, j | 0 <= i < j < |a + c|
      ensures (a + c)[i].first != (a + c)[j].first
    {
      if j < |a| {
        assert (a + c)[i] == a[i] && (a + c)[j] == a[j];
      } else if i >= |a| {
        assert (a + c)[i] == c[i - |a|] && (a + c)[j] == c[j - |a|];
      } else {
        assert (a + c)[i] == a[i] && (a + c)[j] == c[j - |a|];
        assert a[i] in a && c[j - |a|] in c;
      }
    }
  }

  /**
   * The iteration visits every stored entry exactly once: its nodes carry
   * no repeated key, each carries a stored key with its value, every
   * stored entry is among them, and there is one node per entry.
   */
  lemma IterationCoversTable<K, V>(bs: seq<seq<Pair<K, V>>>, hash: K -> nat, m: map<K, V>)
    requires Table(bs, hash, m)
    ensures UniqueKeys(Flatten(bs))
    ensures forall x :: x in Flatten(bs) ==> x.first in m && m[x.first] == x.second
    ensures forall k :: k in m ==> Pair(k, m[k]) in Flatten(bs)
    ensures |Flatten(bs)| == |m|
  {
    if |bs| == 0 {
      assert forall k :: k in m ==> KeyOk(bs, hash, m, k);
      assert m == map[];
      return;
    }
    var b := 0;
    while b != |bs|
      invariant 0 <= b <= |bs| && Covered(bs, hash, m, b)
    {
      CoverStep(bs, hash, m, b);
      b := b + 1;
    }
    assert bs[..b] == bs;
    var f := Flatten(bs);
    DistinctCount(f);
    assert KeysOf(f) == m.Keys;
  }

  /** The iteration over the buckets before b covers exactly the entries stored in them. */
  ghost predicate Covered<K, V>(bs: seq<seq<Pair<K, V>>>, hash: K -> nat, m: map<K, V>, b: nat)
    requires b <= |bs| && |bs| > 0
  {
    UniqueKeys(Flatten(bs[..b]))
    && (forall x :: x in Flatten(bs[..b]) ==>
          x.first in m && m[x.first] == x.second && hash(x.first) % |bs| < b)
    && (forall k :: k in m && hash(k) % |bs| < b ==> Pair(k, m[k]) in Flatten(bs[..b]))
  }

  lemma CoverStep<K, V>(bs: seq<seq<Pair<K, V>>>, hash: K -> nat, m: map<K, V>, b: nat)
    requires Table(bs, hash, m) && b < |bs| && Covered(bs, hash, m, b)
    ensures Covered(bs, hash, m, b + 1)
  {
    var f := Flatten(bs[..b]);
    var c := bs[b];
    FlattenStep(bs, b);
    forall i | 0 <= i < |c|
      ensures hash(c[i].first) % |bs| == b && c[i].first in m && m[c[i].first] == c[i].second
    {
      assert EntryOk(bs, hash, m, b, i);
    }
    assert ChainOk(bs, b);
    UniqueConcat(f, c);
    forall k | k in m && hash(k) % |bs| < b + 1
      ensures Pair(k, m[k]) in f + c
    {
      assert KeyOk(bs, hash, m, k);
    }
  }

  /** bucket_push: link the node at the front of bucket b of the table. */
  method BucketPush<K, V>(table: array<seq<Pair<K, V>>>, b: nat, e: Pair<K, V>)
    requires b < table.Length
    modifies table
    ensures table[..] == old(table[..])[b := [e] + old(table[b])]
  {
    table[b] := [e] + table[b];
  }

  /** bucket_erase: unlink the node at index i of bucket b. */
  method BucketErase<K, V>(table: array<seq<Pair<K, V>>>, b: nat, i: nat)
    requires b < table.Length && i < |table[b]|
    modifies table
    ensures table[..] == old(table[..])[b := old(table[b])[..i] + old(table[b])[i + 1..]]
  {
    table[b] := table[b][..i] + table[b][i + 1..];
  }

  class UnorderedMap<K(==), V> {
    const hash: K -> nat
    var buckets: array<seq<Pair<K, V>>>
    var size: nat
    ghost var Contents: map<K, V>

    ghost predicate Valid()
      reads this, buckets
    {
      Table(buckets[..], hash, Contents) && size == |Contents|
    }

    /** The iterator names a node of the table. */
    ghost predicate Denotes(it: Iterator)
      reads this, buckets
    {
      it.At? && it.bucket < buckets.Length && it.index < |buckets[it.bucket]|
    }

    /** The iterator's place in the iteration order. */
    ghost function Rank(it: Iterator): nat
      reads this, buckets
      requires Denotes(it)
    {
      |Flatten(buckets[..][..it.bucket])| + it.index
    }

    /** unordered_map(): no buckets, no entries. */
    constructor (hash: K -> nat)
      ensures Valid() && this.hash == hash
      ensures Contents == map[] && size == 0 && buckets.Length == 0
    {
      this.hash := hash;
      buckets := new seq<Pair<K, V>>[0];
      size := 0;
      Contents := map[];
    }

    function Size(): (r: nat)
      reads this, buckets
      requires Valid()
      ensures r == |Contents|
    {
      size
    }

    /** operator*: the entry an iterator names. */
    function Get(it: Iterator): (r: Pair<K, V>)
      reads this, buckets
      requires Valid() && Denotes(it)
      ensures r.first in Contents && Contents[r.first] == r.second
      ensures Rank(it) < |Flatten(buckets[..])| && r == Flatten(buckets[..])[Rank(it)]
    {
      FlattenAt(buckets[..], it.bucket, it.index);
      assert EntryOk(buckets[..], hash, Contents, it.bucket, it.index);
      buckets[it.bucket][it.index]
    }

    /** get_bucket: the bucket a key hashes to, the only one that can hold it. */
    function GetBucket(k: K): (r: nat)
      reads this, buckets
      requires Valid() && buckets.Length > 0
      ensures r < buckets.Length
      ensures k in Contents ==> Pair(k, Contents[k]) in buckets[r]
      ensures forall i :: 0 <= i < |buckets[r]| ==> hash(buckets[r][i].first) % buckets.Length == r
    {
      var r := hash(k) % buckets.Length;
      assert KeyOk(buckets[..], hash, Contents, k);
      assert forall i :: 0 <= i < |buckets[r]| ==>
        EntryOk(buckets[..], hash, Contents, r, i) && hash(buckets[r][i].first) % buckets.Length == r;
      r
    }

    /** find: scan the key's bucket; End when the key is absent or there are no buckets. */
    method Find(k: K) returns (it: Iterator)
      requires Valid()
      ensures it == End <==> k !in Contents
      ensures it != End ==> Denotes(it) && Get(it) == Pair(k, Contents[k])
    {
      it := End;
      assert KeyOk(buckets[..], hash, Contents, k);
      if buckets.Length > 0 {
        var b := GetBucket(k);
        var chain := buckets[b];
        var i := 0;
        while i < |chain|
          invariant 0 <= i <= |chain|
          invariant forall j :: 0 <= j < i ==> chain[j].first != k
        {
          if chain[i].first == k {
            assert EntryOk(buckets[..], hash, Contents, b, i);
            it := At(b, i);
            return;
          }
          i := i + 1;
        }
      }
    }

    /**
     * insert: an absent key is added at the front of its bucket, after the
     * table grows when it is empty or the load has reached one entry per
     * bucket; a present key is left with its old value.
     */
    method Insert(v: Pair<K, V>) returns (it: Iterator, inserted: bool)
      requires Valid()
      modifies this, buckets
      ensures Valid()
      ensures inserted <==> v.first !in old(Contents)
      ensures Contents == if inserted then old(Contents)[v.first := v.second] else old(Contents)
      ensures size == if inserted then old(size) + 1 else old(size)
      ensures Denotes(it) && Get(it) == Pair(v.first, Contents[v.first])
      ensures buckets.Length ==
                if inserted && (old(size) == 0 || old(size) >= old(buckets.Length))
                  && TableSize(old(buckets.Length) + 1) > old(buckets.Length)
                then TableSize(old(buckets.Length) + 1)
                else old(buckets.Length)
      ensures !inserted ==> buckets == old(buckets) && buckets[..] == old(buckets[..])
    {
      it := Find(v.first);
      inserted := false;
      if it == End {
        if size == 0 || size >= buckets.Length {
          var n := CalcTableSize(buckets.Length + 1);
          Rehash(n);
        }
        var b := GetBucket(v.first);
        ghost var bs := buckets[..];
        BucketPush(buckets, b, v);
        PushKeeps(bs, hash, Contents, v);
        it := At(b, 0);
        inserted := true;
        size := size + 1;
        Contents := Contents[v.first := v.second];
      }
    }

    /** erase(iterator): unlink and free the node. */
    method EraseAt(it: Iterator)
      requires Valid() && Denotes(it)
      modifies this, buckets
      ensures Valid() && buckets == old(buckets)
      ensures Contents == old(Contents) - {old(Get(it)).first} && old(Get(it)).first in old(Contents)
      ensures size == old(size) - 1
    {
      ghost var bs := buckets[..];
      ghost var key := buckets[it.bucket][it.index].first;
      assert EntryOk(bs, hash, Contents, it.bucket, it.index);
      BucketErase(buckets, it.bucket, it.index);
      EraseKeeps(bs, hash, Contents, it.bucket, it.index);
      size := size - 1;
      Contents := Contents - {key};
    }

    /** erase(key): returns 1 and removes the key when it is present, 0 otherwise. */
    method Erase(k: K) returns (r: nat)
      requires Valid()
      modifies this, buckets
      ensures Valid() && buckets == old(buckets)
      ensures r == if k in old(Contents) then 1 else 0
      ensures Contents == old(Contents) - {k}
      ensures size == old(size) - r
    {
      var it := Find(k);
      if it != End {
        EraseAt(it);
        r := 1;
      } else {
        r := 0;
      }
    }

    /** clear: every bucket is reset to empty and the bucket count is kept. */
    method Clear()
      requires Valid()
      modifies this, buckets
      ensures Valid() && buckets == old(buckets)
      ensures Contents == map[] && size == 0
      ensures forall b :: 0 <= b < buckets.Length ==> buckets[b] == []
    {
      var b := 0;
      while b != buckets.Length
        invariant buckets == old(buckets) && 0 <= b <= buckets.Length
        invariant forall j :: 0 <= j < b ==> buckets[j] == []
      {
        buckets[b] := [];
        b := b + 1;
      }
      size := 0;
      Contents := map[];
      EmptyTable(buckets[..], hash);
    }

    /**
     * rehash(count): when count exceeds the bucket count, every node moves,
     * bucket by bucket and each chain from its front, to the front of its
     * bucket in a fresh table of count buckets; otherwise nothing happens.
     */
    method Rehash(count: nat)
      requires Valid()
      modifies this
      ensures Valid() && Contents == old(Contents) && size == old(size)
      ensures buckets.Length == if count > old(buckets.Length) then count else old(buckets.Length)
      ensures count <= old(buckets.Length) ==> buckets == old(buckets)
      ensures count > old(buckets.Length) ==> fresh(buckets)
    {
      if count > buckets.Length {
        buckets := Redistribute(buckets, hash, Contents, count);
      }
    }

    /** begin(): the front node of the first non-empty bucket, or End. */
    method Begin() returns (it: Iterator)
      requires Valid()
      ensures it == End <==> Flatten(buckets[..]) == []
      ensures it != End ==> Denotes(it) && Rank(it) == 0
    {
      var b := 0;
      while b != buckets.Length
        invariant 0 <= b <= buckets.Length
        invariant Flatten(buckets[..][..b]) == []
      {
        FlattenStep(buckets[..], b);
        if buckets[b] != [] {
          FlattenAt(buckets[..], b, 0);
          return At(b, 0);
        }
        b := b + 1;
      }
      assert buckets[..][..b] == buckets[..];
      return End;
    }

    /** iterator::operator++: the next node of the chain, else the front of the next non-empty bucket, else End. */
    method Next(it: Iterator) returns (r: Iterator)
      requires Valid() && Denotes(it)
      ensures Rank(it) < |Flatten(buckets[..])|
      ensures Rank(it) + 1 < |Flatten(buckets[..])| ==> Denotes(r) && Rank(r) == Rank(it) + 1
      ensures Rank(it) + 1 == |Flatten(buckets[..])| ==> r == End
    {
      ghost var bs := buckets[..];
      FlattenAt(bs, it.bucket, it.index);
      if it.index + 1 < |buckets[it.bucket]| {
        FlattenAt(bs, it.bucket, it.index + 1);
        return At(it.bucket, it.index + 1);
      }
      var b := it.bucket + 1;
      FlattenStep(bs, it.bucket);
      while b != buckets.Length
        invariant it.bucket < b <= buckets.Length
        invariant |Flatten(bs[..b])| == Rank(it) + 1
      {
        FlattenStep(bs, b);
        if buckets[b] != [] {
          FlattenAt(bs, b, 0);
          return At(b, 0);
        }
        b := b + 1;
      }
      assert bs[..b] == bs;
      return End;
    }

    /** The iteration from begin() to end(): the entries in iteration order. */
    method Entries() returns (r: seq<Pair<K, V>>)
      requires Valid()
      ensures r == Flatten(buckets[..])
      ensures |r| == size
    {
      var it := Begin();
      r := [];
      while it != End
        invariant it != End ==> Denotes(it) && Rank(it) == |r|
        invariant it == End ==> |r| == |Flatten(buckets[..])|
        invariant |r| <= |Flatten(buckets[..])| && r == Flatten(buckets[..])[..|r|]
        decreases |Flatten(buckets[..])| - |r|
      {
        var x := Get(it);
        it := Next(it);
        r := r + [x];
      }
      IterationCoversTable(buckets[..], hash, Contents);
    }
  }

  /**
   * The loops of rehash: every node of the old table, bucket by bucket and
   * each chain from its front, is pushed to the front of its bucket in a
   * fresh table of count buckets.
   */
  method Redistribute<K, V>(from: array<seq<Pair<K, V>>>, hash: K -> nat, ghost m: map<K, V>, count: nat)
    returns (table: array<seq<Pair<K, V>>>)
    requires Table(from[..], hash, m) && count > 0
    ensures fresh(table) && table.Length == count
    ensures Table(table[..], hash, m)
  {
    table := new seq<Pair<K, V>>[count](_ => []);
    EmptyTable(table[..], hash);
    ghost var moved: map<K, V> := map[];
    var b := 0;
    while b != from.Length
      invariant 0 <= b <= from.Length
      invariant Table(table[..], hash, moved)
      invariant MovedBuckets(from[..], hash, m, moved, b)
    {
      MovedStart(from[..], hash, m, moved, b);
      moved := MoveChain(from, table, hash, m, moved, b);
      b := b + 1;
    }
    MovedAll(from[..], hash, m, moved);
  }

  /** The inner loop of rehash: bucket b of the old table is emptied into the new one. */
  method MoveChain<K, V>(from: array<seq<Pair<K, V>>>, table: array<seq<Pair<K, V>>>, hash: K -> nat,
                         ghost m: map<K, V>, ghost moved: map<K, V>, b: nat)
    returns (ghost moved': map<K, V>)
    requires from != table && b < from.Length && table.Length > 0
    requires Table(table[..], hash, moved) && MovedPrefix(from[..], hash, m, moved, b, 0)
    modifies table
    ensures Table(table[..], hash, moved') && MovedBuckets(from[..], hash, m, moved', b + 1)
  {
    var chain := from[b];
    moved' := moved;
    var j := 0;
    while j != |chain|
      invariant 0 <= j <= |chain|
      invariant Table(table[..], hash, moved')
      invariant MovedPrefix(from[..], hash, m, moved', b, j)
    {
      var e := chain[j];
      MoveOne(from[..], hash, m, moved', b, j);
      ghost var t := table[..];
      BucketPush(table, hash(e.first) % table.Length, e);
      PushKeeps(t, hash, moved', e);
      ghost var before := moved';
      moved' := moved'[e.first := e.second];
      MovedNext(from[..], hash, m, before, moved', b, j);
      j := j + 1;
    }
    MovedBucketDone(from[..], hash, m, moved', b);
  }

  /** The state of rehash after the buckets before b: the moved map is the old entries of those buckets. */
  ghost predicate MovedBuckets<K, V>(bs: seq<seq<Pair<K, V>>>, hash: K -> nat, m: map<K, V>,
                                     moved: map<K, V>, b: nat)
  {
    Table(bs, hash, m) && b <= |bs|
    && (forall k :: k in moved ==> k in m && moved[k] == m[k] && |bs| > 0 && hash(k) % |bs| < b)
    && (forall k :: k in m && |bs| > 0 && hash(k) % |bs| < b ==> k in moved)
  }

  /** The state of rehash inside bucket b, after its first j nodes. */
  ghost predicate MovedPrefix<K, V>(bs: seq<seq<Pair<K, V>>>, hash: K -> nat, m: map<K, V>,
                                    moved: map<K, V>, b: nat, j: nat)
  {
    Table(bs, hash, m) && b < |bs| && j <= |bs[b]|
    && (forall k :: k in moved ==>
          k in m && moved[k] == m[k]
          && (hash(k) % |bs| < b || (hash(k) % |bs| == b && k in KeysOf(bs[b][..j]))))
    && (forall k :: k in m && hash(k) % |bs| < b ==> k in moved)
    && (forall i :: 0 <= i < j ==> bs[b][i].first in moved)
  }

  lemma MovedStart<K, V>(bs: seq<seq<Pair<K, V>>>, hash: K -> nat, m: map<K, V>,
                         moved: map<K, V>, b: nat)
    requires MovedBuckets(bs, hash, m, moved, b) && b < |bs|
    ensures MovedPrefix(bs, hash, m, moved, b, 0)
  {
  }

  /** The node at index j of bucket b has not been moved yet, and carries its stored value. */
  lemma MoveOne<K, V>(bs: seq<seq<Pair<K, V>>>, hash: K -> nat, m: map<K, V>,
                      moved: map<K, V>, b: nat, j: nat)
    requires MovedPrefix(bs, hash, m, moved, b, j) && j < |bs[b]|
    ensures bs[b][j].first !in moved
    ensures bs[b][j].first in m && m[bs[b][j].first] == bs[b][j].second
  {
    var k := bs[b][j].first;
    assert EntryOk(bs, hash, m, b, j);
    assert ChainOk(bs, b);
    assert forall x :: x in bs[b][..j] ==> x.first != k;
  }

  lemma MovedNext<K, V>(bs: seq<seq<Pair<K, V>>>, hash: K -> nat, m: map<K, V>,
                        moved: map<K, V>, moved': map<K, V>, b: nat, j: nat)
    requires MovedPrefix(bs, hash, m, moved, b, j) && j < |bs[b]|
    requires moved' == moved[bs[b][j].first := bs[b][j].second]
    ensures MovedPrefix(bs, hash, m, moved', b, j + 1)
  {
    assert EntryOk(bs, hash, m, b, j);
    assert bs[b][..j + 1] == bs[b][..j] + [bs[b][j]];
    assert KeysOf(bs[b][..j + 1]) == KeysOf(bs[b][..j]) + {bs[b][j].first};
  }

  lemma MovedBucketDone<K, V>(bs: seq<seq<Pair<K, V>>>, hash: K -> nat, m: map<K, V>,
                              moved: map<K, V>, b: nat)
    requires b < |bs| && MovedPrefix(bs, hash, m, moved, b, |bs[b]|)
    ensures MovedBuckets(bs, hash, m, moved, b + 1)
  {
    forall k | k in m && hash(k) % |bs| < b + 1
      ensures k in moved
    {
      if hash(k) % |bs| == b {
        assert KeyOk(bs, hash, m, k);
        var i :| 0 <= i < |bs[b]| && bs[b][i] == Pair(k, m[k]);
      }
    }
    assert bs[b][..|bs[b]|] == bs[b];
  }

  lemma MovedAll<K, V>(bs: seq<seq<Pair<K, V>>>, hash: K -> nat, m: map<K, V>, moved: map<K, V>)
    requires MovedBuckets(bs, hash, m, moved, |bs|)
    ensures moved == m
  {
    forall k | k in m
      ensures k in moved
    {
      assert KeyOk(bs, hash, m, k);
    }
  }
}
