# Boost.MultiIndex: a verified model

Boost.MultiIndex keeps one set of elements linked into several indices at once: ordered and ranked indices (red-black
trees with parent pointers and subtree sizes), hashed indices (one chain of nodes with buckets and group links threaded
through two pointers per node), sequenced indices (doubly linked lists) and random access indices (arrays of pointers
with back pointers). This project models its algorithms in Dafny, as imperative programs on heap nodes where the library
changes pointers in place, and proves what they keep.

`dafny verify dfyconfig.toml` checks all of it.

| files | subject |
|---|---|
| `Ordering`, `Powers`, `NodeList`, `Spans` | comparison functions, and sequences with distinct elements |
| `OrdIndexNode`, `OrderedIndex` | the tree and its fix-up loops; ordered and ranked indices on it, unique and not |
| `OrderedIndexLoad`, `OrderedIndexRestore` | restoring the saved order of equivalent elements in a tree |
| `HashLayout`, `HashIndexNode`, `HashRanges` | the pointers of a hash chain as the image of buckets of groups of nodes |
| `HashedIndex`, `HashPrefix`, `HashRehash`, `HashResize`, `HashEquals` | hashed indices with equivalent elements |
| `HashUniqueNode`, `HashedUniqueIndex`, `HashUniqueRehash` | hashed unique indices |
| `HashedIndexRehash` | rehashing an index of either kind |
| `IndexKind`, `IndexView`, `Container` | the cascade over any list of indices |
| `IndexAbstraction`, `IndexStep`, `OrderedRefinement`, `HashedRefinement`, `KeylessRefinement` | trees, chains, lists and arrays as indices of the cascade |
| `IndexMatcher`, `IndexStream`, `IndexSaver`, `IndexLoader` | saving and loading an order |
| `Rotation`, `RndIndexNode`, `RandomAccessIndex`, `RndIndexLoader` | random access indices |
| `SeqIndexNode`, `SeqIndexOps`, `SequencedIndex` | sequenced indices |
| `CompositeKey` | composite keys |

## How things are modelled

- Values and keys are integers, a key extractor is a function between them. Comparison functions are strict weak orders;
  an equality of keys is an equivalence that the hash respects.
- A node is an object with its pointers. Ghost fields and ghost layouts (`order`, `pos`, `lo`, `hi`, `bh` in a tree,
  `Layout` in a chain, `World` in lists) say which abstract structure the pointers are to encode; `Valid`, `Linked`,
  `Sound` tie the two together node by node. In a tree, `ValidMeaning` says what this amounts to without ghosts.
- The colour bit is a field beside the parent pointer. The mirrored halves of the fix-up loops are one method with a
  `Side`. Steps of one source function that write the same few pointers are methods of their own.
- In a chain a group is what `Layout.group` says; groups of one and two leave no trace in the pointers, which is why
  `in_place` has to look at keys. A rehash that throws is the one place where the pointers encode a chain only up to a
  boundary (`Upto`). The number `~prev_buc` is `-1 - prev_buc`; the bucket of a hash is its remainder by the number of
  buckets, and that number is a parameter of the rehash.
- The array of buckets of an index is constant: rehashing gives an index object over the same chain with the new array,
  where the library exchanges the arrays.
- What unlinking records is the value `Undo`, with the tracks in the order of the assignments, and undoing writes them
  back in a loop.
- In the cascade an index is a `View`: its order, and for each node the value it was placed by. The refinement modules
  prove of every operation of a tree or chain, and of insertion into and extraction from lists and arrays, that it does
  to the state what the cascade does to the view; `at` names the node an index has for one of the container. A view
  has no buckets: it leaves open where a hashed index puts an element without equivalents, which `HashedIndex` says.
- Which of the caller's functions throw is a parameter (`Faults`: the indices where a comparison throws in the test of
  the old place, or the hash does; those where a comparison throws in the search of another place; whether assigning
  does; a set of indices for insertion), so that every outcome is stated by the state before the call. Where the library
  calls none of them nothing throws: an ordered index compares nothing if the element is alone in it, or for the first
  element inserted. Extracting a key does not throw. `displaced` names hashed indices that do not find x in place though
  its order would do, as the test looks at the bucket too; in `replace_` these are all but those where the key is
  equivalent. In rehashing and sorting, calls throw nondeterministically, so any call may.
- Positions in an archive are numbers. The library's `std::sort`, `std::lower_bound`, `std::find`, `std::count` and
  `integer::gcd` are used by what they promise, or written out.
- The number of counters of the list sort is a parameter `digits` (64 in the source): fewer than 2^digits elements. The
  sort is not stable: the merge takes the element drawn later first among equivalent ones (seq_index_ops.hpp:163).
- `range` with a lower bound above the upper one gives an empty range at the cut of the lower one.

## Findings

`modify` with a rollback does not keep its promise. The reference (doc/reference/ord_indices.html:857) says that it
changes nothing when it fails, except if the modifier or the rollback throws, the rollback does not restore the element,
or an operation throws after the rollback. But in include/boost/multi_index_container.hpp:1044-1055 the rethrow after a
successful rollback stands in the inner try block, is caught by its own handler, and erases the element. So when a
comparison or hash of an index throws while the modified element is being placed, the element is erased even though the
rollback restored it. When the rollback left a value that does not fit, it is erased twice.

`Container.Container.ModifyWithRollback` proves the exact condition, which is checkable before the call: a failed call
changes nothing if and only if the modifier does not throw, an index refuses the new value before any index throws, the
rollback does not throw and gives the old value, and the test after it does not throw (`Undoes`). It answers false if
and only if `Answers` holds, and erases twice if and only if `ErasesTwice` does, two more conditions on the state before
the call. `Container.ModifyThrown` says of every container that a throw before any refusal costs the element, whatever
the rollback brings back. `Container.RolledBackAndErased` and `Container.ErasedTwice` are inputs for both failures: one
ordered unique index with the elements 1 and 3, of which 1 is modified to 2, so that the comparison with 3 is made and
throws; after the second, the count is one less than the number of elements. All the rest of the property holds: on
every other path the container is as before, has the new value everywhere, has the value the rollback left at the old
place, or has exactly x less.

## Model

| member | source | states |
|---|---|---|
| `OrdIndexNode.Tree.constructor` | include/boost/multi_index/detail/ord_index_impl.hpp:1057-1065 | a header as it is left by initialising (red, no root, left and right to itself) is a valid tree without nodes: where every run starts |
| `OrdIndexNode.Tree.RotateLeft` | include/boost/multi_index/detail/ord_index_node.hpp:303-316 | a rotation of any linked tree keeps the order, the parent links and the interval of nodes under every node, and exact sizes stay exact |
| `OrdIndexNode.Tree.RotateRight` | include/boost/multi_index/detail/ord_index_node.hpp:330-343 | the same of the mirrored rotation |
| `OrdIndexNode.Tree.Rebalance` | include/boost/multi_index/detail/ord_index_node.hpp:345-387 | from a tree that is red-black but for a new leaf, coloured red, the loop ends with equal black heights, no red child of a red node, exact sizes and a black root |
| `OrdIndexNode.Tree.Link` | include/boost/multi_index/detail/ord_index_node.hpp:389-413 | linking x at a free side of a node keeps the tree valid (red-black, parent links, header to first and last, sizes) and inserts exactly x, at that place of the order |
| `OrdIndexNode.Tree.FixMissing` | include/boost/multi_index/detail/ord_index_node.hpp:486-547 | when a black node is missing under p0, the loop ends with a red-black tree again, of the same nodes and exact sizes |
| `OrdIndexNode.Tree.Extract` | include/boost/multi_index/detail/ord_index_node.hpp:415-549 | extracting z keeps the tree valid and takes exactly z out of the order |
| `OrdIndexNode.Tree.Restore` | include/boost/multi_index/detail/ord_index_node.hpp:551-560 | x goes just before position, or to the end for the header, and the tree stays valid |
| `OrdIndexNode.Tree.Increment` | include/boost/multi_index/detail/ord_index_node.hpp:266-280 | the next node of the order, the header after the last, also when the root is the only node |
| `OrdIndexNode.Tree.Decrement` | include/boost/multi_index/detail/ord_index_node.hpp:282-299 | the node before, the last one for the header |
| `OrdIndexNode.Tree.AddToAncestors` | include/boost/multi_index/ranked_index.hpp:281-297 | walking up changes the sizes of exactly the proper ancestors of x |
| `OrdIndexNode.Tree.ValidMeaning` | include/boost/multi_index/detail/ord_index_node.hpp:303-549 | what the pointer invariant amounts to: as values, the nodes under the root form a red-black tree with a black root whose in-order sequence is the order, every size is that of its subtree, and the height is at most about twice the logarithm of the number of nodes |
| `OrdIndexNode.RedBlackIsShallow` | include/boost/multi_index/detail/ord_index_node.hpp:345-549 | a red-black tree has height at most twice its black height and at least 2^height/2 - 1 nodes |
| `OrdIndexNode.Tree.Nth` | include/boost/multi_index/detail/rnk_index_ops.hpp:46-64 | the node at place n of the order, the header from the number of nodes on |
| `OrdIndexNode.Tree.Rank` | include/boost/multi_index/detail/rnk_index_ops.hpp:66-85 | the place of a node in the order, the number of nodes for the header |
| `OrdIndexNode.Tree.NthOfRank` | include/boost/multi_index/detail/rnk_index_ops.hpp:46-85 | nth of rank is the node itself |
| `OrdIndexNode.Tree.RankOfNth` | include/boost/multi_index/detail/rnk_index_ops.hpp:46-85 | rank of nth is the place itself, cut off at the number of nodes |
| `OrderedIndex.Index.constructor` | include/boost/multi_index/detail/ord_index_impl.hpp:1057-1065 | an index with an empty tree is in order, strictly too |
| `OrderedIndex.Index.Find` | include/boost/multi_index/detail/ord_index_ops.hpp:94-109 | the first element equivalent to k, or the header exactly when there is none |
| `OrderedIndex.Index.LowerBound` | include/boost/multi_index/detail/ord_index_ops.hpp:142-155 | the first element not less than k |
| `OrderedIndex.Index.UpperBound` | include/boost/multi_index/detail/ord_index_ops.hpp:188-201 | the first element greater than k |
| `OrderedIndex.Index.EqualRange` | include/boost/multi_index/detail/ord_index_ops.hpp:236-258 | the elements between the two results are exactly those equivalent to k |
| `OrderedIndex.Index.Range` | include/boost/multi_index/detail/ord_index_impl.hpp:1289-1367 | for any two monotone conditions on keys, the results are the cut of the lower one and that of the upper one, or twice the first when the upper cut comes before it |
| `OrderedIndex.Index.RangeRank` | include/boost/multi_index/ranked_index.hpp:162-259 | the first rank is the cut of the lower condition, and the places between the two ranks are exactly those of the elements that meet both conditions |
| `OrderedIndex.Index.FindRank` | include/boost/multi_index/detail/rnk_index_ops.hpp:120-142 | the place of the element Find tells, the number of elements when there is none |
| `OrderedIndex.Index.LowerBoundRank` | include/boost/multi_index/detail/rnk_index_ops.hpp:175-195 | the place of the lower bound |
| `OrderedIndex.Index.UpperBoundRank` | include/boost/multi_index/detail/rnk_index_ops.hpp:228-248 | the place of the upper bound |
| `OrderedIndex.Index.EqualRangeRank` | include/boost/multi_index/detail/rnk_index_ops.hpp:286-317 | the two places of the equal range |
| `OrderedIndex.Index.LinkPoint` | include/boost/multi_index/detail/ord_index_impl.hpp:1107-1120 | a free side of a node that stands at the upper bound of k |
| `OrderedIndex.Index.LowerLinkPoint` | include/boost/multi_index/detail/ord_index_impl.hpp:1122-1135 | a free side that stands at the lower bound of k |
| `OrderedIndex.Index.LinkPointUnique` | include/boost/multi_index/detail/ord_index_impl.hpp:1076-1105 | false exactly when an element is equivalent to k, and that element is told; else the free side where k belongs |
| `OrderedIndex.Index.HintedLinkPoint` | include/boost/multi_index/detail/ord_index_impl.hpp:1176-1216 | the free side stands at the hint clamped between lower and upper bound: as close as possible to just before it |
| `OrderedIndex.Index.HintedLinkPointUnique` | include/boost/multi_index/detail/ord_index_impl.hpp:1137-1174 | in a unique index the hint changes neither the answer nor the place |
| `OrderedIndex.Index.Insert` | include/boost/multi_index/detail/ord_index_impl.hpp:761-777 | x is inserted at the upper bound of its key, and the index stays in order |
| `OrderedIndex.Index.InsertHinted` | include/boost/multi_index/detail/ord_index_impl.hpp:780-797 | x is inserted at the clamped hint, and the index stays in order |
| `OrderedIndex.Index.InsertUnique` | include/boost/multi_index/detail/ord_index_impl.hpp:780-797 | x is inserted at its place exactly when no element is equivalent to it, whatever the hint; if not, nothing changes |
| `OrderedIndex.Index.InPlace` | include/boost/multi_index/detail/ord_index_impl.hpp:1241-1254 | the test of the two neighbours tells whether the whole index is in order with the key of v at x |
| `OrderedIndex.Index.InPlaceUnique` | include/boost/multi_index/detail/ord_index_impl.hpp:1227-1239 | the same, strictly, for a unique index |
| `OrderedIndex.Index.UnlinkAndRestore` | include/boost/multi_index/detail/ord_index_impl.hpp:859-876 | extracting x and restoring it before its old successor gives the old order back |
| `OrderedIndex.Index.Replace` | include/boost/multi_index/detail/ord_index_impl.hpp:853-879 | if the other indices accept, x has the value v, in its place if v fits there, or else behind every other element that is not greater and in front of all that are, the others in their order; if they refuse, the order is the old one |
| `OrderedIndex.Index.ReplaceUnique` | include/boost/multi_index/detail/ord_index_impl.hpp:853-879 | fails exactly when another element has the key of v or the other indices refuse, and then the order and all values are the old ones |
| `OrderedIndex.Index.Modify` | include/boost/multi_index/detail/ord_index_impl.hpp:881-943 | x, whose value was changed, keeps its place if the value fits there, or else goes behind every other element that is not greater and in front of all that are, the others in their order; if the other indices refuse, exactly x is gone |
| `OrderedIndex.Index.ModifyUnique` | include/boost/multi_index/detail/ord_index_impl.hpp:881-943 | fails exactly when another element has the new key or the other indices refuse, and then exactly x is gone |
| `OrderedIndexLoad.Destination` | include/boost/multi_index/detail/ord_index_impl.hpp:1413-1432 | the place x goes to lies among the elements equivalent to it; refused exactly when x is less than the element at position |
| `OrderedIndexLoad.Rearrange` | include/boost/multi_index/detail/ord_index_impl.hpp:1413-1432 | x goes right behind position, or in front of its equivalents when position is less; the others keep their order and the index stays in order |
| `OrderedIndexLoad.DuplicateHasTwin` | include/boost/multi_index/detail/duplicates_iterator.hpp:60-88 | to have an equivalent neighbour is to have an equivalent element at all |
| `OrderedIndexLoad.Duplicates` | include/boost/multi_index/detail/duplicates_iterator.hpp:60-88 | the iteration yields exactly the elements that are equivalent to another, each once and in order |
| `OrderedIndexRestore.RearrangeTree` | include/boost/multi_index/detail/ord_index_impl.hpp:1413-1432 | the tree does with its nodes what the loader of lists does with their numbers: the same order after each step, and the same refusals |
| `OrderedIndexRestore.ListFollows` | include/boost/multi_index/detail/index_loader.hpp:66-92 | on values: moving a node behind its place among its equivalents is the step of the loader, with the same case of corruption |
| `OrderedIndexRestore.NamesMove` | include/boost/multi_index/detail/index_loader.hpp:66-92 | moving a node in a list moves its number in the list of numbers |
| `OrderedIndexRestore.KeysInOrder` | include/boost/multi_index/detail/ord_index_impl.hpp:1386-1411 | what the duplicates iterator finds beside an equivalent element is what the round trip needs to be saved |
| `OrderedIndexRestore.Load` | include/boost/multi_index/detail/index_loader.hpp:66-92 | loading into a tree follows the list loader to the end of the stream; it fails only if the stream has no end that way |
| `OrderedIndexRestore.Save` | include/boost/multi_index/detail/ord_index_impl.hpp:1386-1411 | saving the duplicates of a tree writes a stream that takes every loading index to the order of the tree |
| `OrderedIndexRestore.SaveAndLoad` | include/boost/multi_index/detail/ord_index_impl.hpp:1386-1411 | a tree that loads what another of the same elements has saved ends with exactly its order, having read all of the stream |
| `HashLayout.AssignmentsFit` | include/boost/multi_index/detail/hash_index_node.hpp:448-496 | at most three prior and two next pointers differ between the layouts with and without node i, in every position of i |
| `HashLayout.TracksAreExact` | include/boost/multi_index/detail/hash_index_node.hpp:169-217 | what unlinking records are at most three and two pointers, each with the value it had: the arrays never overflow |
| `HashLayout.TracksAreDistinct` | include/boost/multi_index/detail/hash_index_node.hpp:169-217 | no location is recorded twice |
| `HashLayout.LargeIsFixed` | include/boost/multi_index/detail/hash_index_node.hpp:362-367 | two layouts with the same pointers agree on all groups of three and more |
| `HashLayout.RegroupedHasSamePointers` | include/boost/multi_index/detail/hash_index_node.hpp:387-394 | neighbours in a bucket may be joined to a pair, or a pair parted, without a pointer being different |
| `HashIndexNode.Chain.constructor` | include/boost/multi_index/detail/bucket_array.hpp:163-168 | cleared buckets encode the empty chain: where every run starts |
| `HashIndexNode.Chain.Clear` | include/boost/multi_index/detail/bucket_array.hpp:163-168 | clearing makes them so whatever they held |
| `HashIndexNode.Chain.IsFirstOfGroup` | include/boost/multi_index/detail/hash_index_node.hpp:362-367 | the pointer test tells exactly the first nodes of groups of three and more |
| `HashIndexNode.Chain.After` | include/boost/multi_index/detail/hash_index_node.hpp:369-376 | the next node of the chain, from every position |
| `HashIndexNode.Chain.AfterLocal` | include/boost/multi_index/detail/hash_index_node.hpp:378-385 | the next node of the bucket, null from its last |
| `HashIndexNode.Chain.NextToInspect` | include/boost/multi_index/detail/hash_index_node.hpp:387-394 | the node after a small group's node, and the first after a whole large group, so no group is passed over; null at the end of the bucket |
| `HashIndexNode.Chain.Link` | include/boost/multi_index/detail/hash_index_node.hpp:396-411 | x goes to the front of its bucket, or makes a new bucket at the end of the chain, and the pointers encode exactly that |
| `HashIndexNode.Chain.LinkGroup` | include/boost/multi_index/detail/hash_index_node.hpp:413-438 | x goes to the front of the group, whatever its size |
| `HashIndexNode.Chain.Unlink` | include/boost/multi_index/detail/hash_index_node.hpp:448-496 | whatever the position of x, the pointers encode exactly the chain without it; the record is that of the pointers changed |
| `HashIndexNode.Chain.Restore` | include/boost/multi_index/detail/hash_index_node.hpp:169-217 | the record brings the chain back as it was |
| `HashIndexNode.Chain.UnlinkAndRestore` | include/boost/multi_index/detail/hash_index_node.hpp:169-217 | unlinking and undoing it is the identity on every pointer of every node and bucket |
| `HashUniqueNode.IsFirstOfBucket` | include/boost/multi_index/detail/hash_index_node.hpp:235-238 | the pointer test of the unique form tells exactly the first nodes of buckets |
| `HashUniqueNode.After` | include/boost/multi_index/detail/hash_index_node.hpp:240-243 | the next node of the chain |
| `HashUniqueNode.AfterLocal` | include/boost/multi_index/detail/hash_index_node.hpp:245-248 | the next node of the bucket, null from its last |
| `HashUniqueNode.Link` | include/boost/multi_index/detail/hash_index_node.hpp:255-270 | x goes to the front of its bucket, and all groups are single |
| `HashUniqueNode.Unlink` | include/boost/multi_index/detail/hash_index_node.hpp:280-302 | the four cases take exactly x out and record the pointers changed |
| `HashUniqueNode.UnlinkAndRestore` | include/boost/multi_index/detail/hash_index_node.hpp:169-217 | unlinking and undoing it is the identity on every pointer |
| `HashedIndex.Index.constructor` | include/boost/multi_index/detail/bucket_array.hpp:163-168 | an index over cleared buckets is valid and empty |
| `HashedIndex.Index.FindGroup` | include/boost/multi_index/hashed_index.hpp:1240-1252 | the first of the group with a key equal to k, null exactly when there is none in the index |
| `HashedIndex.Index.LastOfRange` | include/boost/multi_index/hashed_index.hpp:1264-1280 | the last node of a group, for groups of one, two and more and at the end of a bucket |
| `HashedIndex.Index.EndOfRange` | include/boost/multi_index/hashed_index.hpp:1292-1312 | the node after the group |
| `HashedIndex.Index.Insert` | include/boost/multi_index/hashed_index.hpp:845-860 | x is put in front of its equals, or else of its bucket; groups stay whole, and the bucket of every node is the one whose number is the remainder of its hash by the number of buckets |
| `HashedIndex.Index.AllInBuckets` | include/boost/multi_index/detail/bucket_array.hpp:91-106 | in any valid index the bucket of a node has the number that is left when its hash is divided by the number of buckets |
| `HashedIndex.Index.Erase` | include/boost/multi_index/hashed_index.hpp:881-889 | exactly x leaves, also when its key has changed, and the index is valid |
| `HashedIndex.Index.InPlace` | include/boost/multi_index/hashed_index.hpp:1500-1555 | true exactly when x may stay with key k in bucket buc: that is its bucket, and the others of its group have keys equal to k, if it is one of three and more, or else the only ones of the bucket with such keys are next to x |
| `HashedIndex.Index.EncodesStays` | include/boost/multi_index/hashed_index.hpp:1500-1555 | if the unchanged pointers encode some chain grouped by the new keys with x in the bucket, x may stay |
| `HashedIndex.Index.StaysEncodes` | include/boost/multi_index/hashed_index.hpp:1500-1555 | and if x may stay, they do encode one: with EncodesStays and InPlace, the test is exact |
| `HashedIndex.Index.Replace` | include/boost/multi_index/hashed_index.hpp:968-993 | if the other indices accept, x has the value v and the index is valid, x in its place if the key is equivalent, or else in front of its equals or of its bucket, the others in their order; if not, the chain is as before |
| `HashedIndex.Index.Modify` | include/boost/multi_index/hashed_index.hpp:995-1055 | x, whose key was changed, is where it was if it may stay, or else in front of its equals or of its bucket, or exactly x is gone if the other indices refuse; the index is valid and the others are in their order |
| `HashedIndex.Index.ModifyRollback` | include/boost/multi_index/hashed_index.hpp:1057-1081 | if the other indices refuse, the chain is as before, x in its place with its changed value |
| `HashedUniqueIndex.LinkPoint` | include/boost/multi_index/hashed_index.hpp:1227-1238 | false exactly when an element of the index has a key equal to k, which is told then; else the bucket of k |
| `HashedUniqueIndex.InPlace` | include/boost/multi_index/hashed_index.hpp:1487-1498 | true exactly when x lies in bucket buc and no other node of it has a key equal to k |
| `HashedUniqueIndex.StaysIsUnique` | include/boost/multi_index/hashed_index.hpp:1487-1498 | that is exactly when the chain as it is, with the new key of x, is that of a valid unique index |
| `HashedUniqueIndex.Insert` | include/boost/multi_index/hashed_index.hpp:845-860 | x is added exactly when no element has an equal key; if not, nothing changes and that element is told |
| `HashedUniqueIndex.Erase` | include/boost/multi_index/hashed_index.hpp:881-889 | exactly x leaves, also when its key has changed |
| `HashedUniqueIndex.Replace` | include/boost/multi_index/hashed_index.hpp:968-993 | fails exactly when another element has a key equal to that of v or the other indices refuse, and then nothing changed |
| `HashedUniqueIndex.Modify` | include/boost/multi_index/hashed_index.hpp:995-1055 | fails exactly when another element has the new key or the other indices refuse, and then exactly x is gone |
| `HashedUniqueIndex.ModifyRollback` | include/boost/multi_index/hashed_index.hpp:1057-1081 | fails under the same condition, and then the chain is as before |
| `HashRanges.LinkRange` | include/boost/multi_index/detail/hash_index_node.hpp:500-516 | a whole group goes to the front of a bucket or makes a new one, in its order |
| `HashRanges.UnlinkRange` | include/boost/multi_index/detail/hash_index_node.hpp:559-580 | a group at the front of its bucket is taken out, and the chain is the one before it came |
| `HashPrefix.UnlinkLastGroup` | include/boost/multi_index/detail/hash_index_node.hpp:526-557 | the last group is taken out of a chain partly passed on, whatever its size, and its bucket told empty exactly when it is |
| `HashPrefix.PutBack` | include/boost/multi_index/detail/hash_index_node.hpp:396-411 | the group taken out last goes back to the end, to its bucket whether that is empty or not |
| `HashRehash.Pass` | include/boost/multi_index/hashed_index.hpp:1443-1449 | one turn: the old chain lacks its last group, and the new one has it in front of its bucket |
| `HashRehash.RollBackAll` | include/boost/multi_index/hashed_index.hpp:1453-1469 | the groups come back in the opposite order, and the old chain is complete |
| `HashRehash.UncheckedRehash` | include/boost/multi_index/hashed_index.hpp:1421-1480 | on groups as the pointers show them: all pass, each node to the new bucket whose number is the remainder of its hash by their number, or, whenever the hash throws, every pointer of nodes and buckets is as before |
| `HashResize.JoinedArrives` | include/boost/multi_index/hashed_index.hpp:1445-1449 | pairs that passed as two single nodes stand side by side again, in their order |
| `HashResize.Rehash` | include/boost/multi_index/hashed_index.hpp:1421-1480 | rehashing keeps the elements and each group whole and in its order, and puts every node in the bucket of its hash; when the hash throws, every pointer is as before |
| `HashUniqueRehash.UnlinkLast` | include/boost/multi_index/detail/hash_index_node.hpp:314-330 | the last node is taken out, and its bucket told empty exactly when it is |
| `HashUniqueRehash.RollBack` | include/boost/multi_index/hashed_index.hpp:1397-1408 | appending the nodes again, in the opposite order, completes the old chain, though they are still in the new one |
| `HashUniqueRehash.UncheckedRehash` | include/boost/multi_index/hashed_index.hpp:1369-1419 | all elements pass, each to the new bucket whose number is the remainder of its hash by their number; when the hash throws, every pointer is as before |
| `HashRehash.RehashedInBuckets` | include/boost/multi_index/detail/bucket_array.hpp:91-106 | what passed is in the bucket whose number is left when the hash is divided by the number of the new buckets |
| `HashedIndexRehash.KeptIsArranged` | include/boost/multi_index/hashed_index.hpp:1421-1480 | what a rehash keeps makes the new layout that of an index: equivalent keys are a group again, and every node is in the bucket of its hash in the new array |
| `HashedIndexRehash.Rehash` | include/boost/multi_index/hashed_index.hpp:1367-1480 | the whole of it, for both kinds: from a valid index, unique or not, rehashing gives a valid index of that kind over the new array, with the same elements, groups in their order and every node in the bucket its hash leaves as remainder; when the hash throws, the old index, every pointer of it as before |
| `HashEquals.CountsDecide` | include/boost/multi_index/hashed_index.hpp:1131-1136 | of two sequences of the same length it is enough to compare how often the elements of one of them occur |
| `HashEquals.IsPermutation` | include/boost/multi_index/hashed_index.hpp:1128-1138 | the loops over two groups of the same length tell exactly whether they are permutations of each other |
| `HashEquals.RangesTell` | include/boost/multi_index/hashed_index.hpp:1115-1122 | the equal ranges of a key agree in counts and length if the whole indices do, and if they agree, so do the indices on the elements of that key |
| `HashEquals.Equals` | include/boost/multi_index/hashed_index.hpp:1112-1141 | two indices are equal exactly when every element occurs equally often in both, whatever buckets and orders they have |
| `Container.Container.Insert` | include/boost/multi_index_container.hpp:689-701 | for any list of indices: a new node is in all of them with the value v, last in sequenced and random access indices, in front of its equivalents in hashed ones, and in ordered ones behind all that are not greater or, with a hint, at the nearest place to it that is in order; and nothing else moves but for the rehash of a full hashed index; or every index keeps its elements and their values; an answer of false means that the element told has a key of v in an index that refuses, and which of the two happens is told exactly by clashes and throws, in the order of the indices |
| `Container.Container.Emplace` | include/boost/multi_index_container.hpp:770-800 | the same, places and hint included, when the node is made first: if making it throws nothing happens, and otherwise it ends as Insert does |
| `Container.Container.Erase` | include/boost/multi_index_container.hpp:923-935 | x leaves every index, the others keep their order, and the count is that of the elements |
| `Container.Container.Replace` | include/boost/multi_index_container.hpp:990-993 | x has the value v in every index: at its old place where the key is equivalent or the value fits there (in a hashed index only if the key is equivalent), and everywhere else exactly where a new element goes; or every index is exactly as before; the answer is false exactly when an index clashes with another element before anything throws |
| `Container.Container.Modify` | include/boost/multi_index_container.hpp:1000-1026 | x has its new value in every index, at its old place exactly where it stays, and everywhere else where a new element goes, or is gone from every one of them; the answer is told exactly by clashes and throws |
| `Container.Container.ModifyWithRollback` | include/boost/multi_index_container.hpp:1028-1071 | succeeds exactly when nothing throws and no index clashes; a failed call changes nothing exactly when it was refused before anything threw and the rollback restored the value without a throw; otherwise x is erased or keeps its place with the value left; told also exactly: when x is erased twice, and then the count is one less than the elements |
| `Container.Container.PlaceFrom` | include/boost/multi_index/detail/index_base.hpp:167-171 | the cascade from index n on: all indices have x by v, or all are as before; the first index to clash or throw decides |
| `Container.Container.ModifyFrom` | include/boost/multi_index/detail/index_base.hpp:179-183 | the cascade of modify: every index has x by its value, or none has x |
| `Container.Container.CheckFrom` | include/boost/multi_index/detail/ord_index_impl.hpp:974-977 | the cascade of check_rollback: true only if x fits where it is in every index; false answers and throws are told exactly by misfits and throws in the order of the indices |
| `Container.Container.InsertFrom` | include/boost/multi_index/detail/index_base.hpp:104-135 | the cascade of insert: the last step makes the node, and all indices before it link it where a new element goes, by the hint if there is one, or keep what they had |
| `Container.RolledBackAndErased` | include/boost/multi_index_container.hpp:1044-1055 | a container of the values 1 and 3: 1 is changed to 2, the comparison with 3 throws, the rollback restores 1, and the element is erased |
| `Container.ModifyThrown` | include/boost/multi_index_container.hpp:1044-1055 | for any container: when an index throws before one refuses, a rollback that does not throw itself brings nothing back; x is erased, twice exactly if the value left does not fit |
| `Container.ErasedTwice` | include/boost/multi_index_container.hpp:1044-1055 | the same, but the rollback leaves 3, the key of the other: the element is erased twice, and the count is 0 with one element left |
| `Container.OldValueStays` | include/boost/multi_index_container.hpp:1059-1062 | a rollback that restores the value is accepted by every index |
| `IndexView.PutBack` | include/boost/multi_index/detail/ord_index_impl.hpp:859-872 | taking a node out of an index and putting it back at its place is the identity |
| `IndexView.SameKeyInPlace` | include/boost/multi_index/detail/ord_index_impl.hpp:1227-1254 | a value with an equivalent key may stay where its node is |
| `IndexView.Rehash` | include/boost/multi_index/hashed_index.hpp:1357-1365 | the rehash before an insertion, on values: the elements are the same, equivalent ones stand together and in the order they had |
| `IndexAbstraction.SortedFits` | include/boost/multi_index/detail/ord_index_impl.hpp:1227-1254 | the order of a tree is one the cascade takes for that kind of index exactly if the tree is in order |
| `IndexAbstraction.InPlaceFits` | include/boost/multi_index/detail/ord_index_impl.hpp:1227-1254 | the neighbour test of the tree decides what the cascade asks |
| `IndexAbstraction.ClashIs` | include/boost/multi_index/detail/ord_index_impl.hpp:1076-1105 | the clashes of the tree are those of the cascade |
| `IndexAbstraction.UpperBoundFits` | include/boost/multi_index/detail/ord_index_impl.hpp:1107-1120 | the place found in the tree is one the cascade admits |
| `IndexAbstraction.UpperGoes` | include/boost/multi_index/detail/ord_index_impl.hpp:1107-1120 | and the one it chooses without a hint |
| `IndexAbstraction.ClampGoes` | include/boost/multi_index/detail/ord_index_impl.hpp:1176-1216 | the hint clamped between the bounds is the nearest place in order, the one the cascade chooses with a hint |
| `IndexAbstraction.BehindGoes` | include/boost/multi_index/detail/ord_index_impl.hpp:1107-1120 | a node behind all that are not greater and in front of the others is where the cascade moves it |
| `IndexAbstraction.LeadsGoes` | include/boost/multi_index/hashed_index.hpp:845-860 | so is the first node of its group in a chain |
| `IndexAbstraction.GroupedFits` | include/boost/multi_index/hashed_index.hpp:1500-1555 | the order of a hash chain is one the cascade takes for its kind |
| `IndexAbstraction.HashedClashIs` | include/boost/multi_index/hashed_index.hpp:1227-1238 | the clashes of the chain are those of the cascade |
| `IndexAbstraction.StaysFits` | include/boost/multi_index/hashed_index.hpp:1500-1555 | a node told to stay in the chain fits there for the cascade |
| `OrderedRefinement.Replace` | include/boost/multi_index/detail/ord_index_impl.hpp:853-879 | for a tree in the state of a view: it gets the value as the view does in the cascade, at the place it has if the value fits there, and refuses on the same clashes; then both are as before |
| `OrderedRefinement.Modify` | include/boost/multi_index/detail/ord_index_impl.hpp:881-943 | x, whose value was changed, is placed as in the cascade, at its old place or behind all that are not greater, or taken out of tree and view |
| `OrderedRefinement.ModifyRollback` | include/boost/multi_index/detail/ord_index_impl.hpp:945-972 | the same, but tree and view are as before if it fails |
| `OrderedRefinement.CheckRollback` | include/boost/multi_index/detail/ord_index_impl.hpp:974-977 | the test of the tree is the one of the cascade, and if it holds the tree is in the state of the view with the new value |
| `OrderedRefinement.Extract` | include/boost/multi_index/detail/ord_index_impl.hpp:799-808 | x, whatever its value by now, leaves tree and view |
| `OrderedRefinement.Insert` | include/boost/multi_index/detail/ord_index_impl.hpp:761-797 | a new node, with a hint or not, is added at the place the cascade chooses, refused on the same clashes |
| `HashedRefinement.Replace` | include/boost/multi_index/hashed_index.hpp:968-993 | for a chain in the state of a view: it gets the value as the view does in the cascade, in its place exactly if the key is equivalent and else as a new element, and refuses on the same clashes; then both are as before |
| `HashedRefinement.Modify` | include/boost/multi_index/hashed_index.hpp:995-1055 | x, whose value was changed, is placed as in the cascade, where it was exactly if the test of the chain lets it stay and else as a new element, or taken out of chain and view |
| `HashedRefinement.ModifyRollback` | include/boost/multi_index/hashed_index.hpp:1057-1081 | the same, but chain and view are as before if it fails |
| `HashedRefinement.CheckRollback` | include/boost/multi_index/hashed_index.hpp:1083-1087 | the test of the chain is one the cascade allows for: true exactly if x lies in its bucket among its equals, so if the key is equivalent; if true the chain is in the state of the view with the new value |
| `HashedRefinement.Extract` | include/boost/multi_index/hashed_index.hpp:881-889 | x, whatever its value by now, leaves chain and view |
| `HashedRefinement.Insert` | include/boost/multi_index/hashed_index.hpp:845-860 | a new node is added as in the cascade, in front of its equivalents, refused on the same clashes |
| `HashedRefinement.Rehash` | include/boost/multi_index/hashed_index.hpp:1367-1480 | a rehash changes the view as the cascade allows for: the same elements, equivalent ones in their order; nothing if the hash throws |
| `KeylessRefinement.KeylessMoves` | include/boost/multi_index/sequenced_index.hpp:779-803 | in an index without keys any value fits where it is, and nothing clashes |
| `KeylessRefinement.InsertInSequence` | include/boost/multi_index/sequenced_index.hpp:704-711 | a sequenced index adds a node as the cascade does: at its end |
| `KeylessRefinement.ExtractFromSequence` | include/boost/multi_index/sequenced_index.hpp:723-731 | and drops one as the cascade does |
| `KeylessRefinement.InsertInVector` | include/boost/multi_index/random_access_index.hpp:810-818 | a random access index adds a node as the cascade does: at its end |
| `KeylessRefinement.ExtractFromVector` | include/boost/multi_index/random_access_index.hpp:831-839 | and drops one as the cascade does |
| `IndexMatcher.PutIsGood` | include/boost/multi_index/detail/index_matcher.hpp:141-156 | a card put on the first pile it may go on keeps the tops of the piles increasing and every card above a smaller one of the pile before |
| `IndexMatcher.NoLonger` | include/boost/multi_index/detail/index_matcher.hpp:141-172 | no increasing subsequence is longer than there are piles |
| `IndexMatcher.ChainIncreases` | include/boost/multi_index/detail/index_matcher.hpp:159-173 | following the links back from a card of pile k gives an increasing subsequence of k + 1 cards ending with it |
| `IndexMatcher.Matcher.FirstPile` | include/boost/multi_index/detail/index_matcher.hpp:141-144 | the binary search finds the first pile the entry may go on |
| `IndexMatcher.Matcher.AddNode` | include/boost/multi_index/detail/index_matcher.hpp:129-157 | the piles, kept in the array of the entries, never outgrow it |
| `IndexMatcher.Matcher.Finish` | include/boost/multi_index/detail/index_matcher.hpp:159-173 | the entries marked are a longest increasing subsequence |
| `IndexMatcher.Execute` | include/boost/multi_index/detail/index_matcher.hpp:211-221 | of any distinct entries exactly those of a longest increasing subsequence are marked |
| `IndexSaver.MoveSettles` | include/boost/multi_index/detail/index_saver.hpp:57-109 | moving a node behind its predecessor settles it without unsettling any other |
| `IndexSaver.RearrangeAscends` | include/boost/multi_index/detail/ord_index_impl.hpp:1413-1432 | a step of the loader of an ordered index keeps it in order |
| `IndexSaver.Save` | include/boost/multi_index/detail/index_saver.hpp:57-109 | what is written is exactly the stream of the marks, and it takes a loader from the start to the whole index, and then ends |
| `IndexStream.RunIsWritten` | include/boost/multi_index/detail/index_saver.hpp:65-105 | each maximal run of displaced nodes, runs one marked node apart joined by it, is written once: its nodes in order behind the node before it, or the first node itself, and closed by null |
| `IndexStream.NothingBetween` | include/boost/multi_index/detail/index_saver.hpp:95-105 | nothing is written for any other node |
| `IndexStream.AllMarked` | include/boost/multi_index/detail/index_saver.hpp:95-108 | if all nodes are marked the stream is one pointer, null |
| `IndexStream.StreamLength` | include/boost/multi_index/detail/index_saver.hpp:65-108 | two pointers for each joined run besides its nodes, and one for the end |
| `IndexStream.JoiningSaves` | include/boost/multi_index/detail/index_saver.hpp:78-93 | every marked node that joins two runs saves one pointer, as against n + 2 pointers for each run of n displaced nodes |
| `IndexSaver.SaveIndex` | include/boost/multi_index/detail/index_saver.hpp:57-109 | with the marks of the matcher, which are those of a longest subsequence in base order, it does so for every order of the index and every start with equivalents in base order; if the nodes are in base order it is one pointer, null |
| `IndexLoader.Load` | include/boost/multi_index/detail/index_loader.hpp:66-92 | the loader follows the stream to its first end, for any stream, and reports corruption only if there is none that can be reached |
| `IndexLoader.SaveAndLoad` | include/boost/multi_index/detail/index_loader.hpp:66-92 | what is loaded is exactly what was saved, from any start and for any marks of the matcher, with all of the stream read and no corruption found |
| `IndexLoader.SaveAndLoadSequence` | include/boost/multi_index/sequenced_index.hpp:898-903 | for an index without keys: any permutation is restored from any other, and the stream of an order that was not changed is one pointer |
| `IndexLoader.DuplicatesCover` | include/boost/multi_index/detail/duplicates_iterator.hpp:60-88 | in an ordered index it is enough to save the elements beside equivalent ones |
| `IndexLoader.SaveAndLoadOrdered` | include/boost/multi_index/detail/ord_index_impl.hpp:1386-1411 | saving only those restores the whole order |
| `Rotation.UnchangedByGcd` | include/boost/multi_index/detail/rnd_index_node.hpp:109-138 | a set of places closed under two shifts is closed under that by their greatest common divisor |
| `Rotation.WalkEnds` | include/boost/multi_index/detail/rnd_index_node.hpp:109-138 | the walk that comes back to i has gone through exactly the places of the residue of i |
| `RndIndexNode.Cycle` | include/boost/multi_index/detail/rnd_index_node.hpp:109-138 | one turn serves its cycle once and leaves the others alone |
| `RndIndexNode.RelocateRange` | include/boost/multi_index/detail/rnd_index_node.hpp:92-139 | the range stands before pos, the rest in its order, and every node knows its slot |
| `RndIndexNode.Relocate` | include/boost/multi_index/detail/rnd_index_node.hpp:73-90 | the same of one node, by shifting |
| `RndIndexNode.MovedIs` | include/boost/multi_index/detail/rnd_index_node.hpp:92-139 | that order, written as a concatenation: the array is exactly rotated |
| `RndIndexNode.Extract` | include/boost/multi_index/detail/rnd_index_node.hpp:141-149 | the slots behind x go down by one, up pointers included |
| `RndIndexNode.Reverse` | include/boost/multi_index/detail/rnd_index_node.hpp:161-170 | the first nodes reversed, every node knowing its slot |
| `RndIndexNode.Transfer` | include/boost/multi_index/detail/rnd_index_node.hpp:151-159 | a new array with the same nodes, each knowing its slot in it |
| `RandomAccessIndex.Index.RoomForOne` | include/boost/multi_index/detail/rnd_index_ptr_array.hpp:63-68 | there is room for one more, and nothing else changed |
| `RandomAccessIndex.Index.Erase` | include/boost/multi_index/detail/rnd_index_ptr_array.hpp:93-97 | exactly x leaves, and the header moves down |
| `RandomAccessIndex.Index.EraseRange` | include/boost/multi_index/random_access_index.hpp:437-449 | exactly the range leaves, the rest in its order |
| `RandomAccessIndex.Index.InsertAll` | include/boost/multi_index/random_access_index.hpp:372-389 | for any run of calls that let an element in, refuse it or throw: the elements let in before the first throw stand before position in their order, and the exception goes on |
| `RandomAccessIndex.Index.RelocateRange` | include/boost/multi_index/random_access_index.hpp:713-726 | the range stands before position, the rest in its order |
| `RandomAccessIndex.Index.Reverse` | include/boost/multi_index/random_access_index.hpp:694-698 | the elements in the opposite order, the header at the end |
| `RandomAccessIndex.Index.Rearrange` | include/boost/multi_index/random_access_index.hpp:728-741 | the order is the one given |
| `RndIndexLoader.Unlink` | include/boost/multi_index/detail/rnd_index_loader.hpp:84-93 | the list lacks exactly x, in the two arrays and through the slots of the nodes |
| `RndIndexLoader.Link` | include/boost/multi_index/detail/rnd_index_loader.hpp:84-93 | x stands behind p |
| `RndIndexLoader.Flatten` | include/boost/multi_index/detail/rnd_index_loader.hpp:63-82 | the single backward pass leaves the array in list order, each node knowing its slot |
| `RndIndexLoader.Loader.Rearrange` | include/boost/multi_index/detail/rnd_index_loader.hpp:84-93 | each step is that of a plain list |
| `RndIndexLoader.Load` | include/boost/multi_index/detail/rnd_index_loader.hpp:63-115 | whatever the steps, the array ends as a plain list would have it, also if there are none |
| `SeqIndexNode.RelinkRange` | include/boost/multi_index/detail/seq_index_node.hpp:73-86 | any range moves before any node, in the same list or another, and all lists are circular |
| `SeqIndexNode.Relink` | include/boost/multi_index/detail/seq_index_node.hpp:65-71 | the same of one node |
| `SeqIndexNode.Link` | include/boost/multi_index/detail/seq_index_node.hpp:52-57 | a new node at the end of a list |
| `SeqIndexNode.Unlink` | include/boost/multi_index/detail/seq_index_node.hpp:59-63 | exactly x leaves its list |
| `SeqIndexNode.Swap` | include/boost/multi_index/detail/seq_index_node.hpp:98-125 | two lists exchange their nodes, each of them empty or not |
| `SeqIndexNode.Reverse` | include/boost/multi_index/detail/seq_index_node.hpp:88-96 | a list in the opposite order, its header in its place |
| `SeqIndexOps.Collate` | include/boost/multi_index/detail/seq_index_ops.hpp:78-101 | two ascending lists become one; if the comparison throws, no node is lost or doubled |
| `SeqIndexOps.CarryFits` | include/boost/multi_index/detail/seq_index_ops.hpp:159-168 | with fewer than 2^digits nodes a counter for the carry exists |
| `SeqIndexOps.CountOne` | include/boost/multi_index/detail/seq_index_ops.hpp:159-173 | counter i is empty or holds exactly 2^i nodes, in ascending order, after every turn |
| `SeqIndexOps.Recover` | include/boost/multi_index/detail/seq_index_ops.hpp:181-191 | when the comparison throws, every node is back in the list |
| `SeqIndexOps.Sort` | include/boost/multi_index/detail/seq_index_ops.hpp:115-193 | an ascending permutation; when the comparison throws, at any call, the list holds every node exactly once |
| `SequencedIndex.Index.RelocateRange` | include/boost/multi_index/sequenced_index.hpp:614-627 | the range stands before position, the rest in its order |
| `SequencedIndex.Index.Sort` | include/boost/multi_index/sequenced_index.hpp:588-593 | the index in ascending order, or, if the comparison throws, with the same elements |
| `SequencedIndex.Index.Rearranger` | include/boost/multi_index/sequenced_index.hpp:898-903 | the step of the loader on the list |
| `SequencedIndex.Index.Rearrange` | include/boost/multi_index/sequenced_index.hpp:629-638 | the order is the one given |
| `CompositeKey.CompareIsLexical` | include/boost/multi_index/composite_key.hpp:353-403 | comparing composite keys is comparing their keys lexically, also for different lengths |
| `CompositeKey.TupleIsLexical` | include/boost/multi_index/composite_key.hpp:415-481 | comparing with a tuple, from either side, is the same with the tuple for the keys |
| `CompositeKey.CompositeIsOrder` | include/boost/multi_index/composite_key.hpp:353-403 | it is a strict weak order if each comparison is |
| `CompositeKey.LeadingIsNeither` | include/boost/multi_index/composite_key.hpp:415-481 | a tuple is neither less nor greater than a value exactly if the leading keys are equivalent to it |
| `CompositeKey.TupleMonotone` | include/boost/multi_index/composite_key.hpp:415-481 | an index sorted by the composite key is partitioned by comparison with any shorter tuple |
| `CompositeKey.EqualRange` | include/boost/multi_index/composite_key.hpp:415-481 | the range found for a tuple holds exactly the elements whose leading keys are equivalent to it |
| `CompositeKey.EqualKeyByKey` | include/boost/multi_index/composite_key.hpp:212-259 | two composite keys are equal exactly if each key is equal to the one at its place, as far as both have any |
| `CompositeKey.TupleEqualKeyByKey` | include/boost/multi_index/composite_key.hpp:275-337 | the same with a tuple on either side |
| `CompositeKey.EqualIsEquivalence` | include/boost/multi_index/composite_key.hpp:212-259 | equality of composite keys is an equivalence if that of each key is |
| `CompositeKey.TupleOfClass` | include/boost/multi_index/composite_key.hpp:275-337 | a tuple of all keys is equal, from either side, to the values of exactly one class |
| `CompositeKey.CombineTells` | include/boost/multi_index/composite_key.hpp:502-504 | with the same hashes before, the result tells any two hashes of a key apart; so it does two carries that differ in the last two bits only |
| `CompositeKey.LastKeyTells` | include/boost/multi_index/composite_key.hpp:487-520 | of two values whose keys hash alike but for the last, the hashes are the same exactly if those of the last keys are |
| `CompositeKey.EqualHashesAlike` | include/boost/multi_index/composite_key.hpp:487-556 | a tuple equal to the keys of a value has its hash |
| `CompositeKey.EqualValuesHashAlike` | include/boost/multi_index/composite_key.hpp:487-520 | values with equal keys have the same hash |

## Left out

- HashRanges.UnlinkRange: for a range that is the first of its bucket, the only kind the rollback of a rehash takes
  out; the branches for a range further on are not modelled.
- HashEquals.Equals: the iterators over a group are taken as the sequence of its values.
- A container assembled of heap indices: the cascade runs on views, and each index is proved to make the step of its
  view by itself; several of them side by side, with their frames, are not put together.
- OrdIndexNode.Tree.Restore: restoring brings the order back, not the shape the tree had, as in the library.
- The unique `equals` of hashed indices and the lexicographic comparison of ordered ones: loops over lookups that are
  proved.
- `remove`, `unique` and `merge` of sequenced and random access indices, `splice`, and `swap` of containers: erasing
  and relinking that is proved, in simple loops.
- `clear` and `delete_all_nodes_`: every node is freed; there is no allocation in the model.
- Template metaprogramming, tags, key extractors, argument forwarding: resolved at compile time.
- Allocators, node handles, move and swap of containers, scope guards: resource management.
- The archive formats and versions: a stream is a sequence of optional positions.
- Load factors and the table of primes: floating point; the number of buckets is a parameter.
- Safe mode, invariant checks and assertions: debugging aids.
- A `std::size_t` of other than 64 bits in `composite_key_hash`; the hashes of the single keys are parameters.
