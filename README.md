# taapp containers in Dafny

A model of the five sequential container templates of the taapp library,
with proofs of what each promises:

- `Vectors` (vector.dfy): `vector<T>`, a dynamic array. The buffer is an
  `array<T>` whose length is the capacity, and a `size` field plays end_.
  The growth rule is `increment_capacity`. Insert and erase shift elements
  one at a time, as the source's element-wise loops do.
- `PriorityQueues` (priority_queue.dfy): `priority_queue<T, vector, Compare>`,
  a binary max-heap kept in a `Vector`. Push sifts up and pop sifts down on
  the vector's buffer. `Compare` is a parameter `less` that is a strict weak
  order (module `Orders`).
- `Lists` (list.dfy): `list<T>`, a circular doubly linked list with an anchor
  node. Node objects carry values. Their `aprev`/`anext` links are maps kept
  by an `Allocator` object, which several lists may share. Each list keeps a
  ghost sequence of its element nodes (`nodes`) and of their values
  (`Contents`), and `Ring` says that the links form the anchor's ring.
- `UnorderedMaps` (unordered_map.dfy): `unordered_map<Key, T, Hash, Pred>`,
  separate chaining. The bucket table is an `array` of chains, each
  front-first, and grows through the prime table of `calc_table_size`. The
  hash is a parameter `hash: K -> nat`, and Pred is key equality. A ghost
  map `Contents` is what the table stores. `Table` ties the chains to it:
  every node sits in bucket `hash(key) % numbuckets`, and each key appears
  once.
- `RedBlackTrees`, `RedBlackNodes`, `RedBlackSet` (rbtree.dfy, rbnodes.dfy,
  set.dfy), with `SortedKeys` (keys.dfy): `set<Key, Compare>`, a red-black
  tree.
  - The rbnode records live in a map `nodes` from identity to record (the
    allocator's storage), and NULL is `NIL`.
  - Methods of class `Set` rewire parent, left and right links and colours
    record by record, as the source's pointer code does.
  - A ghost `Tree` value, `tree`, is what the records hold (`Holds`: the
    links and the parent back-links agree with the tree, and every record
    belongs to it).
  - `IsRB` states properties 1-5 of the class comment.
  - `Sorted(less, Keys(tree))` is the search-tree order.
  - Insert's and erase's rebalancing loops are proved on tree values, with
    the path to the current node as a zipper (`Ctx`). Each method step is
    proved to perform the matching value-level step on the records.

## Model

| member | source | states |
|---|---|---|
| Vectors.IncrementCapacity | include/taapp/vector.h:269-272 | 8 from an empty buffer, double below 64, plus 64 from 64 on; always larger than the old capacity |
| Vectors.GrownCapacity | include/taapp/vector.h:196-205 | the capacity resize asks for is at least both the requested size and increment_capacity's value, and is one of the two: their maximum; always larger than the old capacity |
| Vectors.Vector.constructor | include/taapp/vector.h:32-34 | no elements and no capacity |
| Vectors.Vector.Size | include/taapp/vector.h:235-238 | the number of live elements |
| Vectors.Vector.Capacity | include/taapp/vector.h:77-80 | capacity(): the buffer's length, never below the size of a valid vector |
| Vectors.Vector.Empty | include/taapp/vector.h:88-91 | true exactly when there are no elements |
| Vectors.Vector.Get | include/taapp/vector.h:51-55 | operator[] at an index below size reads that element |
| Vectors.Vector.Front | include/taapp/vector.h:133-136 | the first element |
| Vectors.Vector.Back | include/taapp/vector.h:62-65 | the last element |
| Vectors.Vector.Reallocate | include/taapp/vector.h:325-348 | a fresh buffer of the new capacity holding the same elements |
| Vectors.Vector.PushBack | include/taapp/vector.h:175-183 | t is appended; the buffer grows to increment_capacity(capacity) exactly when it was full and is otherwise the same buffer; size never exceeds capacity |
| Vectors.Vector.PopBack | include/taapp/vector.h:168-173 | on a non-empty vector, the last element is dropped and the buffer kept |
| Vectors.Vector.Clear | include/taapp/vector.h:82-86 | no elements; the buffer, hence the capacity, is kept |
| Vectors.Vector.Reserve | include/taapp/vector.h:185-192 | the elements are kept; the capacity becomes c when c is larger, otherwise nothing changes |
| Vectors.Vector.Resize | include/taapp/vector.h:194-210 | size becomes n, the first min(n, old size) elements are kept, and the capacity grows to max(increment_capacity(c), n) only when n exceeds c |
| Vectors.Vector.ResizeFill | include/taapp/vector.h:212-233 | as resize, and every new slot holds t; shrinking keeps the prefix; the buffer is the same one unless n exceeds the capacity |
| Vectors.Vector.Erase | include/taapp/vector.h:103-126 | the element at it is removed, later ones move one slot left, and the same index is returned |
| Vectors.Vector.Insert | include/taapp/vector.h:138-166 | t is placed at pos, later elements move one slot right, pos is returned; the capacity grows as in push_back |
| PriorityQueues.Swapped | include/taapp/priority_queue.h:67-68 | the two slots exchanged and every other slot kept |
| PriorityQueues.RootDominates | include/taapp/priority_queue.h:91-109 | in a heap no element compares greater than the front |
| PriorityQueues.HeapTopIsMax | include/taapp/priority_queue.h:117-120 | the front of a heap is a maximum under compare |
| PriorityQueues.PopNeverRaisesTop | include/taapp/priority_queue.h:30-79 | the front left after removing a heap's front never compares greater than the removed one |
| PriorityQueues.PriorityQueue.constructor | include/taapp/priority_queue.h:21-23 | an empty queue over a fresh container |
| PriorityQueues.PriorityQueue.Size | include/taapp/priority_queue.h:112-115 | the container's size |
| PriorityQueues.PriorityQueue.Empty | include/taapp/priority_queue.h:25-28 | the container's emptiness |
| PriorityQueues.PriorityQueue.Top | include/taapp/priority_queue.h:117-120 | the container's front, which no element compares greater than |
| PriorityQueues.PriorityQueue.Push | include/taapp/priority_queue.h:81-110 | the old multiset plus n, one element more, and the heap property restored |
| PriorityQueues.PriorityQueue.Pop | include/taapp/priority_queue.h:30-79 | on a non-empty queue, exactly one instance of the front is removed and the heap property is restored |
| PriorityQueues.SiftUp | include/taapp/priority_queue.h:91-109 | from a heap whose only disorder is the edge into n's slot, the loop ends with a heap holding the same multiset |
| PriorityQueues.SiftDown | include/taapp/priority_queue.h:48-77 | from a heap whose only disorder is below the front, sinking through the greater child ends with a heap holding the same multiset |
| PriorityQueues.Exchange | include/taapp/priority_queue.h:67-68 | one sift step exchanges the two slots and keeps the multiset |
| PriorityQueues.Store | include/taapp/priority_queue.h:46 | the front slot is overwritten and nothing else |
| PriorityQueues.SwapSameMultiset | include/taapp/priority_queue.h:67-68 | exchanging two slots keeps the multiset |
| PriorityQueues.PushStart | include/taapp/priority_queue.h:83-88 | appending to a heap leaves only the edge into the new slot in doubt |
| PriorityQueues.PopStart | include/taapp/priority_queue.h:33-46 | moving the last element to the front leaves only the edges out of the front in doubt |
| PriorityQueues.SiftUpStep | include/taapp/priority_queue.h:97-103 | an exchange with a lesser parent moves the only disorder one edge up |
| PriorityQueues.SiftUpDone | include/taapp/priority_queue.h:91-108 | at the root, or under a parent that is not less, the array is a heap |
| PriorityQueues.GreaterChild | include/taapp/priority_queue.h:51-61 | the child chosen, the greater, dominates both children |
| PriorityQueues.SiftDownChoice | include/taapp/priority_queue.h:65-76 | exchanging with the greater child moves the disorder one level down, and stopping when node is not less leaves a heap |
| PriorityQueues.SiftDownLeaf | include/taapp/priority_queue.h:48 | a slot without children leaves a heap |
| PriorityQueues.AppendNonIncreasing | test/priorityqueuetest/src/main.cpp:114-123 | appending a top no greater than the last one keeps the sequence non-increasing |
| PriorityQueues.Drain | test/priorityqueuetest/src/main.cpp:114-125 | popping until empty yields every element, in non-increasing order, and size() is then 0 |
| Lists.Node.constructor | include/taapp/list.h:351-355 | a node carrying the value |
| Lists.Allocator.constructor | include/taapp/list.h:384 | no links allocated yet |
| Lists.Reversed | test/listtest/src/main.cpp:196-202 | the sequence read back to front, entry by entry |
| Lists.Members | include/taapp/list.h:383 | the anchor and the element nodes, and nothing else |
| Lists.Linked | include/taapp/list.h:16-25 | in a ring every position links forward to the next and back to the previous, the anchor closing both ends |
| Lists.PosDistinct | include/taapp/list.h:16-25 | two different ring positions are different nodes |
| Lists.EmptyRing | include/taapp/list.h:181-185 | an anchor linked to itself is the ring of no elements |
| Lists.RingFrame | include/taapp/list.h:16-25 | a ring is unaffected by link stores at nodes outside it |
| Lists.InsertRing | include/taapp/list.h:265-275 | the four link stores of insert turn the ring of s into the ring with the fresh node at position k, touching only the neighbours' links |
| Lists.EraseRing | include/taapp/list.h:239-248 | the two link stores of erase, and freeing the node, turn the ring into the ring without position k |
| Lists.SpliceRing | include/taapp/list.h:318-330 | the six link stores of splice give the receiving ring with the other ring's elements in front of position k, and reset the other anchor to itself |
| Lists.ValuesOne | include/taapp/list.h:351-355 | a fresh node carries its value |
| Lists.ValuesSplice | include/taapp/list.h:265-275 | the values of spliced node sequences are the spliced value sequences |
| Lists.ValuesDrop | include/taapp/list.h:239-248 | dropping a node drops its value |
| Lists.List.constructor | include/taapp/list.h:181-185 | an empty list whose anchor links to itself |
| Lists.List.Empty | include/taapp/list.h:224-227 | the anchor links to itself exactly when the list has no elements |
| Lists.List.Front | include/taapp/list.h:255-258 | the first value |
| Lists.List.Back | include/taapp/list.h:197-200 | the last value |
| Lists.List.Begin | include/taapp/list.h:207-210 | the first element node, which is the anchor exactly when the list is empty |
| Lists.List.End | include/taapp/list.h:234-237 | the anchor, before the first and after the last position, and no element |
| Lists.List.Value | include/taapp/list.h:75-78 | dereferencing an iterator at element k reads value k |
| Lists.List.Next | include/taapp/list.h:69-73 | ++ moves to the next position, from end() to begin() |
| Lists.List.Prev | include/taapp/list.h:63-67 | -- moves to the previous position |
| Lists.List.Forward | test/listtest/src/main.cpp:185-195 | ++ from begin() to end() visits the values in order |
| Lists.List.Backward | test/listtest/src/main.cpp:196-202 | -- from the last element to end() visits them in reverse, the mirror image of the forward walk |
| Lists.List.PushBack | include/taapp/list.h:295-303 | t appended in a fresh node; the other nodes, their order and every other ring's links kept |
| Lists.List.PushFront | include/taapp/list.h:305-313 | t prepended in a fresh node; the rest kept |
| Lists.List.PopBack | include/taapp/list.h:277-284 | on a non-empty list, the last element is removed and the rest kept |
| Lists.List.PopFront | include/taapp/list.h:286-293 | on a non-empty list, the first element is removed and the rest kept |
| Lists.List.Insert | include/taapp/list.h:265-275 | t is placed immediately before pos, and its fresh node is returned |
| Lists.List.Erase | include/taapp/list.h:239-248 | exactly the element at pos is removed, and the node that followed it is returned |
| Lists.List.Splice | include/taapp/list.h:318-330 | the other list's nodes, in order, move in front of pos, and the other list is left empty; since nodes move, iterators into it now point into this list |
| Lists.List.Apart | include/taapp/list.h:318-321 | lists sharing no node own disjoint links |
| Lists.PushBackBeside | include/taapp/list.h:295-303 | push_back on one list leaves a second list on the same allocator valid |
| Lists.PushFrontBeside | include/taapp/list.h:305-313 | push_front on one list leaves a second list on the same allocator valid |
| Lists.BuildTestLists | test/listtest/src/main.cpp:166-175 | the test's two lists hold [0, 1, 2] and [9, 4, 5, 6] |
| Lists.ReversedTestList | test/listtest/src/main.cpp:196-202 | the backward walk over 0..6 yields 6..0 |
| Lists.SpliceTestLists | test/listtest/src/main.cpp:177-183 | after the splice, the insert of 3 and the erase of 9, the list holds 0..6; the other list is empty and this one is not |
| Lists.ListScenario | test/listtest/src/main.cpp:169-207 | the whole test: forward 0..6, backward 6..0, and after popping both ends front 1 and back 5 |
| UnorderedMaps.TableSizeLeast | include/taapp/unordered_map.h:546-568 | the smallest table prime that is at least s, or the last entry 1610612741 when s exceeds them all |
| UnorderedMaps.PrimesAscending | include/taapp/unordered_map.h:548-556 | the prime table is ascending |
| UnorderedMaps.CalcTableSize | include/taapp/unordered_map.h:546-568 | the scan returns the table size of s: a table entry, at least s when one is |
| UnorderedMaps.PushKeeps | include/taapp/unordered_map.h:577-583 | pushing an absent key's node at the front of its hash bucket keeps every node in its bucket and every key once, and stores the map plus that entry |
| UnorderedMaps.EraseKeeps | include/taapp/unordered_map.h:570-574 | unlinking a node stores the map without its key |
| UnorderedMaps.EmptyTable | include/taapp/unordered_map.h:305-324 | empty buckets store no entry |
| UnorderedMaps.FlattenAppend | include/taapp/unordered_map.h:71-94 | the iteration over concatenated tables is the concatenation of their iterations |
| UnorderedMaps.FlattenStep | include/taapp/unordered_map.h:80-89 | iterating over one bucket more appends its chain |
| UnorderedMaps.FlattenAt | include/taapp/unordered_map.h:71-94 | the node at index i of bucket b is visited at a fixed rank of the iteration |
| UnorderedMaps.DistinctCount | include/taapp/unordered_map.h:478-481 | a node sequence without a repeated key has as many nodes as keys |
| UnorderedMaps.UniqueConcat | include/taapp/unordered_map.h:71-94 | sequences without a repeated or shared key concatenate to one without a repeated key |
| UnorderedMaps.IterationCoversTable | include/taapp/unordered_map.h:71-94 | iteration visits every stored entry exactly once, and no other, with its value; as many visits as entries |
| UnorderedMaps.CoverStep | include/taapp/unordered_map.h:80-89 | the iteration over one more bucket covers exactly the entries stored in it |
| UnorderedMaps.BucketPush | include/taapp/unordered_map.h:577-583 | the node goes to the front of bucket b, and no other bucket changes |
| UnorderedMaps.BucketErase | include/taapp/unordered_map.h:570-574 | the node leaves bucket b, and no other bucket changes |
| UnorderedMaps.UnorderedMap.constructor | include/taapp/unordered_map.h:281-284 | no buckets and no entries |
| UnorderedMaps.UnorderedMap.Size | include/taapp/unordered_map.h:478-481 | the number of stored entries |
| UnorderedMaps.UnorderedMap.Get | include/taapp/unordered_map.h:96-99 | an iterator's entry is a stored key with its value, the one the iteration visits at its rank |
| UnorderedMaps.UnorderedMap.GetBucket | include/taapp/unordered_map.h:590-593 | the bucket hash(k) % numbuckets, which holds k's entry when k is stored and holds only nodes hashing to it |
| UnorderedMaps.UnorderedMap.Find | include/taapp/unordered_map.h:377-397 | end() exactly when the key is absent, including when there are no buckets; otherwise an iterator to the key's entry |
| UnorderedMaps.UnorderedMap.Insert | include/taapp/unordered_map.h:399-420 | an absent key is added, second is true and size grows by one; a present key keeps its value, second is false, nothing changes; the table first grows to calc_table_size(numbuckets + 1) when empty or when size >= numbuckets |
| UnorderedMaps.UnorderedMap.EraseAt | include/taapp/unordered_map.h:347-353 | the iterator's key is removed and size drops by one |
| UnorderedMaps.UnorderedMap.Erase | include/taapp/unordered_map.h:336-345 | 1 and removal exactly when the key was present, 0 and no change otherwise |
| UnorderedMaps.UnorderedMap.Clear | include/taapp/unordered_map.h:305-324 | every bucket empty, size 0, the bucket count kept |
| UnorderedMaps.UnorderedMap.Rehash | include/taapp/unordered_map.h:436-476 | nothing unless count exceeds numbuckets; otherwise a fresh table of count buckets with the same entries and size |
| UnorderedMaps.UnorderedMap.Begin | include/taapp/unordered_map.h:123-139 | the first node of the first non-empty bucket, end() exactly when the table stores nothing |
| UnorderedMaps.UnorderedMap.Next | include/taapp/unordered_map.h:71-94 | the node of the next rank: the next in the chain, or the front of the next non-empty bucket, or end() after the last |
| UnorderedMaps.UnorderedMap.Entries | test/unorderedmaptest/src/main.cpp:185-197 | iterating from begin() to end() visits the table's nodes in bucket order, as many as size() |
| UnorderedMaps.Redistribute | include/taapp/unordered_map.h:442-469 | moving every node, bucket by bucket, into a fresh table of count buckets stores the same map |
| UnorderedMaps.MoveChain | include/taapp/unordered_map.h:460-466 | emptying one old bucket into the new table moves exactly its entries |
| UnorderedMaps.MovedStart | include/taapp/unordered_map.h:457-460 | the state of rehash at the start of a bucket |
| UnorderedMaps.MoveOne | include/taapp/unordered_map.h:462-465 | the front node of the old bucket has not been moved yet and carries its stored value |
| UnorderedMaps.MovedNext | include/taapp/unordered_map.h:462-465 | moving one node extends the moved map by its entry |
| UnorderedMaps.MovedBucketDone | include/taapp/unordered_map.h:467 | once the bucket is empty, every entry hashing before the next bucket has moved |
| UnorderedMaps.MovedAll | include/taapp/unordered_map.h:457-469 | after the last bucket every entry has moved |
| SortedKeys.SortedTail | include/taapp/set.h:406-425 | the tail of a sorted key sequence is sorted |
| SortedKeys.SortedAbove | include/taapp/set.h:411-414 | a key below the first of a sorted sequence is below all of them |
| SortedKeys.AboveAbsent | include/taapp/set.h:409-424 | a key below or above every key is not equivalent to any |
| SortedKeys.InsertionSorted | include/taapp/set.h:427-502 | inserting into a sorted sequence keeps it sorted |
| SortedKeys.InsertionAbsent | include/taapp/set.h:452-499 | inserting an absent key adds exactly that key |
| SortedKeys.InsertionPresent | include/taapp/set.h:445-449 | inserting a key equivalent to a present one changes nothing |
| SortedKeys.InsertionSplit | include/taapp/set.h:468-474 | a key between a lower and an upper part goes between them |
| SortedKeys.DeletionAbsent | include/taapp/set.h:310-319 | deleting an absent key changes nothing |
| SortedKeys.DeletionFirst | include/taapp/set.h:310-319 | deletion removes the first key equivalent to k |
| SortedKeys.DeletionSplit | include/taapp/set.h:310-319 | in a sorted sequence, deletion removes exactly the equivalent key at its index |
| SortedKeys.RemovedSorted | include/taapp/set.h:321-403 | taking one key out of a sorted sequence keeps it sorted |
| SortedKeys.RemovedExcludes | include/taapp/set.h:310-319 | once the equivalent key is taken out, no key equivalent to k remains |
| SortedKeys.RemovedCount | include/taapp/set.h:395 | taking one key out removes exactly one element |
| SortedKeys.DeletionSorted | include/taapp/set.h:310-319 | deletion keeps a sorted sequence sorted, leaves no equivalent key, and removes exactly one key when one was present |
| Orders.Asymmetric | include/taapp/set.h:411-418 | a strict weak order is asymmetric |
| Orders.NotLessTransitive | include/taapp/priority_queue.h:91-109 | "not less" is transitive under a strict weak order |
| Orders.LessThenNotLess | include/taapp/set.h:411-418 | x < y and not x < z give not y < z |
| RedBlackTrees.KeysPlug | include/taapp/set.h:17-24 | a tree's keys are those left of a position, the subtree's, then those right of it |
| RedBlackTrees.OrderPlug | include/taapp/set.h:63-95 | the same for the nodes in iteration order |
| RedBlackTrees.IdsPlug | include/taapp/set.h:548-555 | a tree's nodes are the path's and the subtree's |
| RedBlackTrees.PlugCompose | include/taapp/set.h:548-555 | plugging into a composed path is plugging twice |
| RedBlackTrees.RefPlug | include/taapp/set.h:559 | root_ is the outermost node of a non-empty path |
| RedBlackTrees.WithinPlug | include/taapp/set.h:17-24 | a valid subtree that fits its position makes the whole tree valid |
| RedBlackTrees.FitsPlug | include/taapp/set.h:17-24 | a fitting valid subtree under a black root gives a valid red-black tree |
| RedBlackTrees.PlugWithin | include/taapp/set.h:17-24 | every subtree of a valid tree is valid and fits its position |
| RedBlackTrees.PlugFits | include/taapp/set.h:17-24 | every subtree of a red-black tree fits its position |
| RedBlackTrees.RotateRearranges | include/taapp/set.h:676-702 | rotate keeps the nodes and their in-order sequence, and thus the keys |
| RedBlackTrees.Rotate | include/taapp/set.h:676-702 | the reference definition of rotate on tree values: the pivot takes the root's place and is black, the old root is its red child on the rotation side, and the nodes are the same; `RotateRearranges` proves the in-order sequences kept and `RedBlackSet.Set.RotateAt` that the record stores produce it |
| RedBlackTrees.DoubleRotate | include/taapp/set.h:637-644 | the reference definition of double_rotate: the inner grandchild becomes the black root, the old root its red child on the rotation side, the nodes the same; `DoubleRotateRearranges` proves the in-order sequences kept and `RedBlackSet.Set.DoubleRotateAt` that the record stores produce it |
| RedBlackTrees.BalanceInsert | include/taapp/set.h:614-635 | the reference definition of balance_insert (colour flip, rotation or double rotation): a subtree with the same nodes; `InsertStep` proves that one step keeps insert's invariant and `RedBlackSet.Set.BalanceInsertAt` that the record code performs it |
| RedBlackTrees.EraseSibling | include/taapp/set.h:577-609 | the reference definition of cases 3 to 6 of balance_erase: a subtree with the same nodes, the loop never ending at a NULL sibling; `EraseStepBlack` and `EraseUnderRed` prove what each case achieves and `RedBlackSet.Set.EraseSiblingAt` that the record code performs it |
| RedBlackTrees.BalanceErase | include/taapp/set.h:564-612 | the reference definition of balance_erase, case 2's rotation then cases 3 to 6: a subtree with the same nodes; `EraseStep` proves that one step ends valid or moves the shortage up and `RedBlackSet.Set.BalanceEraseAt` that the record code performs it |
| RedBlackTrees.SpliceOut | include/taapp/set.h:324-366 | the reference definition of erase's unlinking, as the path, the subtree in the vacated place and the colour taken out; it has no contract of its own: `EraseOne`, `SuccessorRemoved` and `EraseSplice` prove that it takes exactly the node out and leaves the rebalancing's start state, and `RedBlackSet.Set.Unlink` that the record code performs it |
| RedBlackTrees.DoubleRotateRearranges | include/taapp/set.h:637-644 | double_rotate keeps the nodes and their in-order sequence |
| RedBlackTrees.PlugRearranged | include/taapp/set.h:684 | rearranging a subtree in place rearranges the whole tree |
| RedBlackTrees.WithinWeaken | include/taapp/set.h:321-392 | a position that takes a red-rooted subtree of black height h also takes a black-rooted one of the same height; erase uses it where a black subtree takes a red one's place: when a red node is unlinked, and when balance_erase ends with a black root where a red one stood |
| RedBlackTrees.InsertFlip | include/taapp/set.h:619-625 | the colour flip under a red uncle moves the only red-red violation two levels up |
| RedBlackTrees.InsertRotate | include/taapp/set.h:626-629 | the single rotation for an outer red grandchild leaves a valid subtree of the same black height |
| RedBlackTrees.InsertDoubleRotate | include/taapp/set.h:630-633 | the double rotation for an inner red grandchild leaves a valid subtree of the same black height |
| RedBlackTrees.InsertStep | include/taapp/set.h:481-494 | one balance_insert step keeps insert's invariant one level up and rearranges the subtree |
| RedBlackTrees.InsertStays | include/taapp/set.h:614-635 | with a black uncle and black grandchildren balance_insert changes nothing, and the invariant holds one level up |
| RedBlackTrees.InsertExit | include/taapp/set.h:481-497 | when insert's loop stops at the root or at a black node, painting root_ black gives a valid red-black tree |
| RedBlackTrees.InsertStart | include/taapp/set.h:457-477 | linking the red leaf under its parent starts insert's loop with its invariant |
| RedBlackTrees.RepaintRearranges | include/taapp/set.h:604-606 | repainting nodes keeps nodes and order |
| RedBlackTrees.JoinValid | include/taapp/set.h:17-24 | a node over two valid subtrees of one black height is valid when a red node has black children |
| RedBlackTrees.ChildValid | include/taapp/set.h:17-24 | the children of a valid subtree are valid |
| RedBlackTrees.BlackenValid | include/taapp/set.h:396-399 | painting a valid subtree's root black keeps it valid |
| RedBlackTrees.EraseRecolor | include/taapp/set.h:579-591 | cases 3 and 4: painting the sibling red moves the shortage up, or ends it under a red parent |
| RedBlackTrees.EraseRotate | include/taapp/set.h:596-607 | case 6: the single rotation at the parent ends the shortage |
| RedBlackTrees.EraseDoubleRotate | include/taapp/set.h:600-607 | case 5: the double rotation ends the shortage |
| RedBlackTrees.JoinRearranged | include/taapp/set.h:604-606 | recolouring the top of a rearranged subtree keeps it rearranged |
| RedBlackTrees.EraseStep | include/taapp/set.h:378-390 | one balance_erase step: the sibling is never NULL, and the step either ends with a valid tree or moves the shortage to the parent it returns |
| RedBlackTrees.EraseUnderRed | include/taapp/set.h:577-609 | under a red parent, cases 4 to 6 always end the loop |
| RedBlackTrees.EraseStepRed | include/taapp/set.h:571-576 | case 2: after the rotation at a red sibling, cases 3 to 6 end at the old root |
| RedBlackTrees.EraseStepBlack | include/taapp/set.h:577-609 | cases 3 to 6 at a black sibling |
| RedBlackTrees.Leftmost | include/taapp/set.h:341-349 | the path down to a subtree's leftmost node, a node without a left child |
| RedBlackTrees.LeftmostPlug | include/taapp/set.h:341-349 | plugging back the leftmost node gives the subtree |
| RedBlackTrees.EraseOne | include/taapp/set.h:330-336 | a node with at most one child: removing it leaves a state the rebalancing starts from |
| RedBlackTrees.SpliceChildKeys | include/taapp/set.h:362-366 | with at most one child, the keys left are all others in order |
| RedBlackTrees.SpliceChildOrder | include/taapp/set.h:362-366 | the same for nodes in iteration order |
| RedBlackTrees.PlugSubset | include/taapp/set.h:362 | putting part of a subtree in its place keeps the nodes distinct |
| RedBlackTrees.ChildIds | include/taapp/set.h:362-366 | a child in its parent's place keeps the nodes distinct, without the parent |
| RedBlackTrees.RelabelFits | include/taapp/set.h:356-359 | the successor taking over the removed node's place and colour changes nothing about fitting |
| RedBlackTrees.RemovedFinish | include/taapp/set.h:368-393 | from the state after the splice: a removed red node leaves a red-black tree; a removed black node with a red child leaves one once that child is painted black; a removed black node with a black or NULL child leaves the start state of the fix-up loop (`EraseInvariant`), whose end `RedBlackSet.Set.EraseFixup` proves |
| RedBlackTrees.SuccessorRemoved | include/taapp/set.h:337-361 | the successor taking the place of a node with two children leaves a state the rebalancing starts from |
| RedBlackTrees.MinRemovedKeys | include/taapp/set.h:353 | taking out the leftmost node of a subtree takes its key off the front |
| RedBlackTrees.MinRemovedOrder | include/taapp/set.h:353 | the same for the nodes |
| RedBlackTrees.MinRemovedIds | include/taapp/set.h:353 | taking out a node without a left child leaves the other nodes, still distinct |
| RedBlackTrees.Replacement | include/taapp/set.h:350-360 | the subtree in place of a node with two children has the same keys and nodes, minus that node |
| RedBlackTrees.SuccessorShape | include/taapp/set.h:337-361 | the path and subtree after the successor swap |
| RedBlackTrees.SuccessorKeys | include/taapp/set.h:337-361 | the successor swap leaves the keys in order without the removed one |
| RedBlackTrees.SuccessorOrder | include/taapp/set.h:337-361 | the same for nodes |
| RedBlackTrees.SuccessorIds | include/taapp/set.h:337-361 | the same for the node set |
| RedBlackTrees.EraseSplice | include/taapp/set.h:324-366 | the splice takes exactly the node out of the in-order sequences and of the tree, leaving a state the rebalancing starts from |
| RedBlackTrees.ErasedIndex | include/taapp/set.h:324-325 | the node stands at index \|Before\| + \|left keys\| of both in-order sequences |
| RedBlackTrees.ErasedOrder | include/taapp/set.h:321-403 | removing the node removes exactly its index from the iteration order |
| RedBlackTrees.ErasedKeys | include/taapp/set.h:321-403 | the same for the keys |
| RedBlackTrees.ErasedIds | include/taapp/set.h:400-401 | the nodes left are all the others |
| RedBlackTrees.OrderLength | include/taapp/set.h:548-555 | one key per node in order |
| RedBlackTrees.BeforeLength | include/taapp/set.h:548-555 | one key per node left of a position |
| RedBlackTrees.At | include/taapp/set.h:97-100 | a node's key stands at its index of the key sequence |
| RedBlackTrees.OrderIds | include/taapp/set.h:63-95 | every node appears in iteration order exactly once |
| RedBlackTrees.IndexOf | include/taapp/set.h:63-95 | the index of a node in iteration order |
| RedBlackTrees.IndexOfAt | include/taapp/set.h:63-95 | the index of the entry at i of a sequence without repeats is i |
| RedBlackTrees.Locate | include/taapp/set.h:548-555 | every node of a tree has a position in it |
| RedBlackTrees.SuccessorBelow | include/taapp/set.h:67-77 | with a right child, the next node in order is that child's leftmost node |
| RedBlackTrees.SuccessorAbove | include/taapp/set.h:78-91 | the last node of a left child is followed in order by its parent |
| RedBlackTrees.SuccessorNone | include/taapp/set.h:82-93 | the last node of the tree has no successor |
| RedBlackTrees.SortedNode | include/taapp/set.h:17-24 | in a sorted tree the keys on each side of a node lie on that side of its key |
| RedBlackTrees.DescendLeft | include/taapp/set.h:411-414 | going left at a node above k keeps every key right of the position above k |
| RedBlackTrees.DescendRight | include/taapp/set.h:415-418 | going right at a node below k keeps every key left of the position below k |
| RedBlackTrees.SearchMiss | include/taapp/set.h:409-424 | a descent ending at NULL means no key is equivalent to k |
| RedBlackTrees.SearchInsert | include/taapp/set.h:468-474 | linking k at the empty position the descent reaches is sorted insertion |
| RedBlackTrees.SearchHit | include/taapp/set.h:445-449 | a descent stopping at an equivalent key: insertion changes nothing |
| RedBlackNodes.ReprJoin | include/taapp/set.h:548-555 | the records hold a node exactly when its record and both children's are right |
| RedBlackNodes.ReprPlug | include/taapp/set.h:548-555 | the records hold a tree exactly when they hold the path and the subtree |
| RedBlackNodes.ReprFrame | include/taapp/set.h:548-555 | a subtree stays represented when only records outside it change |
| RedBlackNodes.ReprCtxFrame | include/taapp/set.h:548-555 | the same for a path |
| RedBlackNodes.Reparent | include/taapp/set.h:683 | a subtree whose root only has its parent pointer changed is represented under the new parent |
| RedBlackNodes.Relink | include/taapp/set.h:657-674 | a path whose bottom node only has one link changed represents the new child |
| RedBlackNodes.Replace | include/taapp/set.h:657-674 | replacing the subtree at a position, and the parent's link, represents the new tree |
| RedBlackNodes.Repaint | include/taapp/set.h:698-699 | recolouring a node's record represents the recoloured tree |
| RedBlackNodes.RotateShape | include/taapp/set.h:676-702 | the rotated subtree has the same nodes |
| RedBlackNodes.RotateLocal | include/taapp/set.h:676-702 | the records after rotate's stores hold the rotated subtree |
| RedBlackNodes.RotateRepr | include/taapp/set.h:676-702 | rotate's stores make the records hold the tree with the subtree rotated |
| RedBlackNodes.IsRedRef | include/taapp/set.h:652-655 | is_red on a node's record is the colour of its subtree, NULL being black |
| RedBlackNodes.ParentLink | include/taapp/set.h:81-90 | a node's parent record is the path's bottom node, and it names the node on the side it came from |
| RedBlackNodes.RecordAt | include/taapp/set.h:548-555 | a represented node's record carries its key and colour |
| RedBlackNodes.KeyAt | include/taapp/set.h:97-100 | the node at index i of the iteration order holds key i |
| RedBlackNodes.ShapedRepaint | include/taapp/set.h:497 | repainting root_ black gives the records of the blackened tree |
| RedBlackNodes.ShapedRearranged | include/taapp/set.h:476-495 | records keep holding a rearranged tree with the same nodes |
| RedBlackNodes.LinkLeaf | include/taapp/set.h:455-474 | a fresh red leaf linked at the empty position: the records hold the tree with the leaf in place |
| RedBlackNodes.RotatableFacts | include/taapp/set.h:676-702 | the nodes a rotation touches are distinct and present |
| RedBlackNodes.RotatedRecords | include/taapp/set.h:683-699 | the records of the old root and the pivot after rotate |
| RedBlackNodes.RotatedHeap | include/taapp/set.h:676-702 | rotate's stores on the records in the source's order; no record is allocated or freed; `RotatedRecords`, `RotatedOthers` and `RotatedFrame` give each record afterwards |
| RedBlackNodes.RotatedOthers | include/taapp/set.h:689-692 | the pivot child's record after rotate |
| RedBlackNodes.RotatedFrame | include/taapp/set.h:676-702 | rotate changes no other record |
| RedBlackNodes.RotatedRepr | include/taapp/set.h:676-702 | the records after rotate hold the rotated subtree under the old parent |
| RedBlackNodes.RotatedShaped | include/taapp/set.h:676-702 | the records after rotate hold the whole tree with the subtree rotated |
| RedBlackNodes.SplicedChild | include/taapp/set.h:330-366 | a node with one child: the records after the splice hold the tree with the child in its place |
| RedBlackNodes.SplicedLeaf | include/taapp/set.h:330-366 | a node with no child: NULL takes its place |
| RedBlackNodes.OuterIds | include/taapp/set.h:559 | the outermost node of a path is one of its nodes |
| RedBlackNodes.LeftmostLeft | include/taapp/set.h:342-349 | the leftmost node's record has no left child |
| RedBlackNodes.ReprCtxRetop | include/taapp/set.h:357 | a path stays represented when only its outermost node's parent pointer changes |
| RedBlackNodes.ReprCtxRewire | include/taapp/set.h:350-357 | a path stays represented when its bottom node's link and the outer parent pointer change |
| RedBlackNodes.PromotedHeap | include/taapp/set.h:350-361 | the successor's record takes over the removed node's links and colour |
| RedBlackNodes.SplicedHeap | include/taapp/set.h:362-366 | the successor's right child takes the successor's old place |
| RedBlackNodes.SpliceLayoutHolds | include/taapp/set.h:337-366 | the layout of the tree around the successor |
| RedBlackNodes.SpliceLeftIds | include/taapp/set.h:351-352 | the removed node's left subtree is disjoint from the rest |
| RedBlackNodes.SpliceInnerIds | include/taapp/set.h:353-355 | the successor's path below the removed node is disjoint from the rest |
| RedBlackNodes.SplicePathIds | include/taapp/set.h:356-357 | the path above the removed node is disjoint from the rest |
| RedBlackNodes.SpliceWithin | include/taapp/set.h:337-366 | the records the splice changes are those of the listed nodes |
| RedBlackNodes.PromoteFacts | include/taapp/set.h:337-361 | the nodes the successor swap touches are distinct and present |
| RedBlackNodes.PromotedRecords | include/taapp/set.h:350-361 | the records after the successor swap |
| RedBlackNodes.SplicedRecords | include/taapp/set.h:362-366 | the records after the final splice |
| RedBlackNodes.SplicedLeft | include/taapp/set.h:351-352 | the left subtree stays represented under the successor |
| RedBlackNodes.SplicedInner | include/taapp/set.h:353-355 | the inner path stays represented with the successor's right child at its bottom |
| RedBlackNodes.SplicedPath | include/taapp/set.h:356-357 | the outer path stays represented with the successor in the removed node's place |
| RedBlackNodes.SplicedRight | include/taapp/set.h:353-355 | the successor's right child stays represented under its new parent |
| RedBlackNodes.SplicedShaped | include/taapp/set.h:337-366 | after the splice of a node with two children the records hold the spliced tree |
| RedBlackNodes.PromotedLink | include/taapp/set.h:354-355 | the removed node's right child is relinked under the successor |
| RedBlackNodes.Deallocated | include/taapp/set.h:400-401 | freeing the removed node's record leaves the records holding the tree |
| RedBlackNodes.LeafFreedIds | include/taapp/set.h:266-286 | freeing a leaf leaves the other nodes, still distinct, and the records of exactly those |
| RedBlackNodes.LeafFreed | include/taapp/set.h:266-286 | after freeing a leaf and clearing its parent's link the records hold the tree without it |
| RedBlackSet.Set.constructor | include/taapp/set.h:225-227 | an empty valid set |
| RedBlackSet.Set.Size | include/taapp/set.h:504-507 | the number of keys |
| RedBlackSet.Set.Empty | include/taapp/set.h:295-298 | true exactly when there is no key |
| RedBlackSet.Set.Find | include/taapp/set.h:406-425 | end() exactly when no key is equivalent to k; otherwise a node holding an equivalent key |
| RedBlackSet.Set.Begin | include/taapp/set.h:246-256 | the first node in iteration order, or end() when empty |
| RedBlackSet.Set.Next | include/taapp/set.h:63-95 | ++ returns the node after x in iteration order, or end() after the last |
| RedBlackSet.Set.Walk | test/settest/src/main.cpp:184-197 | ++ from begin() until end() reads exactly the keys, in increasing order, size() of them |
| RedBlackSet.Set.Descend | include/taapp/set.h:68-77 | from a right child, the leftmost node below it |
| RedBlackSet.Set.Climb | include/taapp/set.h:78-92 | from the last node of a subtree, the first ancestor reached from its left, that is the successor, or end() |
| RedBlackSet.Set.SetParent | include/taapp/set.h:683 | only that record's parent pointer changes |
| RedBlackSet.Set.SetChild | include/taapp/set.h:704-715 | only that record's d-link changes |
| RedBlackSet.Set.SetColor | include/taapp/set.h:698-699 | only that record's colour changes |
| RedBlackSet.Set.ReplaceChild | include/taapp/set.h:657-674 | the parent's link that held child now names the new child, or root_ does when there is no parent |
| RedBlackSet.Set.RotateAt | include/taapp/set.h:676-702 | the records hold the tree with the subtree rotated, its new root returned |
| RedBlackSet.Set.DoubleRotateAt | include/taapp/set.h:637-644 | the records hold the tree with the subtree double-rotated |
| RedBlackSet.Set.BalanceInsertAt | include/taapp/set.h:614-635 | the records hold the tree after balance_insert, and its new root is returned |
| RedBlackSet.Set.Probe | include/taapp/set.h:432-450 | either a node with an equivalent key (insertion then changes nothing) or an empty position whose left keys are below k and right keys above it |
| RedBlackSet.Set.InsertFixup | include/taapp/set.h:476-497 | the loop ends with a red-black tree, once its root is black, with the same nodes in the same order |
| RedBlackSet.Set.LinkNew | include/taapp/set.h:452-497 | a fresh red node is linked and rebalanced; the tree is red-black once root_ is black |
| RedBlackSet.Set.Insert | include/taapp/set.h:427-502 | the keys become the sorted insertion of k; second is true exactly when k was absent, in which case a fresh node holding k is returned, every old node keeps its record identity and its place in iteration order, and the new node stands between them; otherwise the equivalent node is returned and nothing changes; the invariant, the black root and size kept |
| RedBlackSet.Set.LeftmostOfRight | include/taapp/set.h:341-349 | the successor search returns the leftmost node of the right subtree |
| RedBlackSet.Set.Promote | include/taapp/set.h:337-361 | the successor takes the removed node's place and colour; its old parent, right child and colour are returned |
| RedBlackSet.Set.Unlink | include/taapp/set.h:324-366 | the records hold the spliced tree; the parent, the child and the removed colour that the rebalancing reads |
| RedBlackSet.Set.RepaintRotated | include/taapp/set.h:604-606 | the new root takes the old colour and both children become black |
| RedBlackSet.Set.EraseSiblingAt | include/taapp/set.h:577-609 | the records hold the tree after cases 3 to 6, returning root_ when done and the parent otherwise |
| RedBlackSet.Set.BalanceEraseAt | include/taapp/set.h:564-612 | the records hold the tree after balance_erase, returning root_ when done |
| RedBlackSet.Set.EraseFixup | include/taapp/set.h:378-390 | the loop ends with a red-black tree with the same nodes in the same order |
| RedBlackSet.Set.Rebalance | include/taapp/set.h:369-392 | a red child is painted black or the loop runs, and a red-black tree results |
| RedBlackSet.Set.BlackenRoot | include/taapp/set.h:396-399 | root_ is already black, so the repaint changes no record |
| RedBlackSet.Set.Detach | include/taapp/set.h:324-401 | the node is spliced out and freed, the tree rebalanced, and size drops by one |
| RedBlackSet.Set.Erase | include/taapp/set.h:321-404 | the node leaves the iteration order and its key the key sequence, the others keep their order, and the returned iterator is the erased node's successor |
| RedBlackSet.Set.EraseNode | include/taapp/set.h:324-401 | the node leaves the iteration order and the key sequence, and its record is freed |
| RedBlackSet.Set.EraseKey | include/taapp/set.h:310-319 | 1 exactly when a key equivalent to k was present, the keys become their deletion of k, and exactly the node at that key's index leaves the iteration order and the records; 0 and no change otherwise |
| RedBlackSet.Set.FreeLeaf | include/taapp/set.h:266-288 | the leaf's record is freed and its parent's link cleared; the walk resumes at the parent |
| RedBlackSet.Set.FreeAll | include/taapp/set.h:260-290 | the walk frees every record |
| RedBlackSet.Set.Clear | include/taapp/set.h:258-293 | every record freed, root_ NULL, size_ 0 and empty() true |
| RedBlackSet.ErasedLayout | include/taapp/set.h:321-403 | after the splice, the node's index is removed from both in-order sequences |
| RedBlackSet.ErasedValid | include/taapp/set.h:394-401 | the erased state keeps the keys sorted, size counting them and every identity fresh below next |
| RedBlackSet.Position | include/taapp/set.h:321-326 | an erased node has a position in the tree |
| RedBlackSet.InsertedKeys | include/taapp/set.h:452-499 | the inserted tree's keys are the sorted insertion of k |
| RedBlackSet.InsertedValid | include/taapp/set.h:452-499 | after the insertion, with root_ black, the set invariant holds with size + 1 and the new node holding k |
| RedBlackSet.InsertedAt | include/taapp/set.h:452-499 | the new node stands at k's index of the key sequence |
| RedBlackSet.InsertedIds | include/taapp/set.h:452-499 | the new node's identity joins the others |
| RedBlackSet.InsertedOrder | include/taapp/set.h:452-499 | insert only links one node: the old iteration order is kept with the new node inserted at its index, and the identities are the old ones plus the new one |

## Left out

- The allocator (allocator.h) is not part of this model. Allocation is infallible fresh-object or fresh-identity creation, and freeing drops a record or a map entry. No caller checks for a NULL result, so there is no allocation-failure path.
- pair.h is a datatype (`UnorderedMaps.Pair`) or a tuple of out-parameters (`inserted`).
- Placement-new `constructor` helpers, destructor calls, `construct_range` and `destroy_range` are C++ object-lifetime plumbing with no visible state here.
- The vector's `TRIVIAL_*` type traits and its memmove/memcpy branches are left out. They perform the same shift or copy as the element-wise loops, which are what is modelled.
- Vectors.Vector.Resize: the slots that resize(n) adds are default-constructed in C++. Their values are left unspecified here, so the contract only speaks of the kept prefix.
- The float `load_factor`, `max_load_factor` and the `max_load_factor(float)` setter are left out. Floats are out of scope. The default growth trigger (load factor 1.0) is modelled as the integer test `size >= numbuckets`.
- `unordered_map::const_iterator` is not modelled. Its operator++ reads a field `tnode` does not have and returns the wrong type, so it cannot be instantiated. The const_iterators of set and list duplicate their iterators, and one iterator per container is modelled.
- list::clear and the list, set, vector and unordered_map destructors are left out. list::clear frees the nodes but does not reset the anchor, so it is only meaningful as destructor behaviour.
- The map variant of the set (map.h) is not part of this model. Its header is not available, and it differs from the set only in the node payload.
- Hash and comparators are parameters. The comparator is a strict weak order (`Orders.StrictWeakOrder`), and the hash is any function to `nat`. Key equality stands for Pred.
- Integers are unbounded: size_t overflow, the 32-bit table entries and pointer arithmetic are not modelled. No container here can reach those limits without exhausting memory first.
- Lists: node links are allocator-owned maps keyed by node object, not fields of the nodes. What aliasing the model captures is stated through `Footprint`/`Unchanged`.
- Lists: an iterator's position is passed as a ghost index beside the node (`k` in Insert, Erase, Splice, Next, Prev). The source's iterator is the node alone.
- Lists.List.PopBack, Lists.List.PopFront: the source pops an empty list with undefined results. The model requires a non-empty list, as front() and back() do.
- RedBlackSet: the tree value `tree` is ghost, and the rebalancing loops are proved against value-level steps (`BalanceInsert`, `BalanceErase`). The records in `nodes` are what the methods change.
- RedBlackSet.Set.Erase: erase(end()) is undefined in the source. The model requires a node of the tree.
- RedBlackSet.Set.Find: the returned node is stated to hold an equivalent key, not the first of several equivalent keys. The set never holds two equivalent keys (`Sorted` is strict).
- UnorderedMaps.UnorderedMap.Insert, UnorderedMaps.UnorderedMap.EraseAt: chains are sequences of entries rather than linked nodes, and an iterator is a bucket and an index in its chain (`At`). Such an iterator goes stale in three cases. An insert into its bucket puts the new node at index 0. An erase of an earlier node of its bucket shifts the index. A rehash rebuilds the table. In the source, bucket_push and bucket_erase relink only the neighbours (unordered_map.h:570-583), so node pointers survive the first two cases. After a rehash the nodes survive, but an iterator's bucket pointer refers to the freed old table (unordered_map.h:470-474).
- PriorityQueues.Drain: the source's test reads top() once more after the last pop, on an empty container. The model stops at the last pop.
- Test-harness plumbing (instance and allocation counters, rand(), printf, CRT leak checks) is left out. The tests' checks are modelled as methods:
  - the list scenario (`Lists.ListScenario`) and the list walks (`Lists.List.Forward`, `Lists.List.Backward`);
  - the unordered_map walk (`UnorderedMaps.UnorderedMap.Entries`);
  - the set walk (`RedBlackSet.Set.Walk`);
  - the priority-queue drain (`PriorityQueues.Drain`).
  The tests' random key sequences are not modelled; each method holds for every state the container can be in.
