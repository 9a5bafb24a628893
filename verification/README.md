# AstraKV data structures: a verified model

The project models the in-memory data structures of the key-value store and proves what they keep.

**The counted B-tree** behind the sorted set (`BTree.dfy` and the modules under it). A node
(`BPNode.Node`) is an object with a key area, a child area, an item count and, if it is an inner
node, a subtree count; there are no parent pointers, and a `Path` of (node, position) records stands in
for them. Beside the heap there is a value: `Shape.Tree`, a tree over node identities. `Rep(t)` says that
the memory below `t.id` is the tree `t`; `InOrder(t)` is the sequence of its keys. A place in the tree is a
pair of a context (`Contexts.Ctx`, the frames from the root down to a hole, which a path records) and
the subtree in the hole. Every step of an update is a statement about a context and a subtree: which keys they
hold together, how far the stored counts are off, which node may be short. The steps are composed along
the path, and the public methods state their effect on `Contents()`, the sorted key sequence.
A valid tree is unshared, strictly sorted, of equal leaf depth, with exact counts, leaves of 7 to 15 and
inner nodes of 4 to 10 keys below the root, and `numNodes` is the number of reachable nodes.

**The sorted set** (`ZSet.dfy`) over that tree with its two maps; **streams** (`Stream.dfy`), **HyperLogLog**
sketches (`HyperLogLog.dfy`), the **2Q eviction policy** (`Eviction.dfy`), and the **length-prefixed formats** of the
engine, the C interface and the Rust readers (`Codec.dfy`, `Serialize.dfy`, `Deserialize.dfy`, `ZSetCodec.dfy`,
`StreamCodec.dfy`, `Readers.dfy`).

Conventions:

- Ghost parameters of a method (a context, a subtree, a height, the keys of a node) name the value that the
  memory represents; they have no counterpart in the program. A long method of the source is cut into several where
  the text gives line ranges; shifting loops over key and child areas are methods of `Slots`.
- The key and child areas lie inside a node's 256-byte block, so they are fields of type `seq`, updated in place.
- Scores are `real`: a total order without NaN. A member's hash is a function given to the set, and the
  clock of a stream is a parameter of `XAdd`. So are the conversion of 8 stored bytes to a score (`toScore`), the
  replacement of invalid UTF-8 by the Rust reader (`lossy`) and the product `share(n)` of n with 1 - ratio, rounded as
  it may be; what is proved holds for every such function.
- `DestroyNode` havocs the node, so no proof can depend on the contents of a node that was given back, and it alone
  adds to `freed`, the ghost list of these nodes.
- The order of ids and the 2Q queues are specified apart from the code: ids by the 128-bit number `Place`, the queues by
  a ghost log of what happened to each key. `Perform` ties a step of a run to the methods.
- Counts of 32 bits are bounded types: that they never wrap is proved from the size of the tree. An insertion
  requires fewer than 2^32 - 1 keys.
- A hash is a number; shifting and masking it are division and remainder by powers of two. The packed
  registers are bit vectors.

Where the program differs from what its comments or its shape suggest, the model follows the program:

- Splitting a full inner node leaves 5 keys, a median and 4 keys, one below `kMinInnerKeys`. The right half stays there
  exactly if the new child comes after one of the first six children; so 4 is the true lower bound of a resting inner
  node (`Contexts.InnerHalves`, `Shape.Filled`).
- The comments on `GEQ` and `LEQ` state their comparisons the wrong way round; the code finds the least key not
  below the query and the greatest not above it. Both, and `Contains`, need a tree that is not empty.
- The sorted set is sound exactly as long as no two members have the same hash (`ZSet.ZSetBPlus.Add`,
  `ZSet.CollidingPair`); once two have, it becomes sound again when it is cleared (`ZSet.ZSetBPlus.Clear`).
- A stored sorted set comes back with the same score at every place of its order. Where the loading process hashes
  differently, members of equal score come back in the same order iff both hashes agree on it
  (`ZSetCodec.StoreAndLoadZset`, `ZSet.SwappedTie`).
- The ids of the entries in a stream stay increasing, and none after the last id, throughout a run iff no generated id
  finds the sequence number used up in the newest entry's millisecond (`Streams.RunKeeps`, `Streams.ExhaustedRun`).
- `XRange` stops at the first entry past the end of the range, so it misses what stands behind: every range is
  returned in full iff the ids of the entries do not go down (`Streams.RangesExact`). A reachable stream on which it
  misses an entry is that of `Streams.MissedEntry`.
- The ids a stream has given, those of deleted entries included, need more: they are increasing iff every new id is
  generated without that wrap, or is explicit and after the last id given (`Streams.RunGives`). The program compares an
  explicit id with the newest entry only, so it accepts a lower one once the newer entries are deleted, and then gives
  an id a second time (`Streams.LoweredRun`).
- A reload keeps the entries iff their ids are increasing, and the last id iff that is the newest entry's
  (`Streams.ReloadSame`, `Streams.ReloadExact`); after a reload, too, an id can be given twice (`Streams.ReusedId`).
- `HyperLogLog::Add` masks 56 bits but counts in 50: the count terminates iff the masked value is zero or its low
  50 bits are not (`HLL.LoopEnds`), so there are hashes it never finishes with (`HLL.EndlessHash`).
- A register is accessed in two bytes, of which the second is past the end of the array iff it is register 16383
  (`HLL.PastArray`). The model has that byte, with any content, behind the 12288 of the sketch: no register depends on
  it, and no operation changes it (`HLL.ForeignByte`, `HLL.SketchesForeign`).
- A `next` of the Rust iterators that returns `None` may have consumed a length. From a position on, an iterator returns
  `None` for ever iff no record starts at any place it can stop at (`Readers.SilentIff`): for members these are the
  places 4 bytes apart (`Readers.MembersAhead`). `Readers.NotFused` is a buffer on which it goes on.

## Model

| member | source | states |
|---|---|---|
| Siblings.RecutSame | src/zset/bplustree_internal.hpp:538-641 | moving the boundary between two siblings changes neither the parent's in-order sequence nor its set of nodes |
| Siblings.MovedLeftRecut | src/zset/bplustree_internal.hpp:538-585 | a left-ward move keeps left, separator, right as one sequence of keys and one of children, and keeps the count error of both siblings |
| Siblings.MovedRightRecut | src/zset/bplustree_internal.hpp:588-641 | the same for a right-ward move |
| Siblings.MergedSame | src/zset/bplustree_internal.hpp:650-667 | merging two siblings keeps every key in order and takes exactly one node out of the tree |
| Siblings.LowLeftSizes | src/zset/bplustree_internal.hpp:669-679 | half the difference taken from the right sibling fills both nodes up to their lower bounds, and fits |
| Siblings.LowRightSizes | src/zset/bplustree_internal.hpp:684-697 | the same from the left sibling |
| Siblings.MovesRoom | src/zset/bplustree_internal.hpp:482-491 | nothing is moved iff the sibling has no free slot, or one that the item is not next to; all free slots are filled from an end, half of them otherwise |
| Siblings.GrownRecut | src/zset/bplustree_internal.hpp:473-535 | inserting at the place a rebalancing names is the same as inserting first and rebalancing afterwards, so the place keeps order |
| Siblings.SettledRecut | src/zset/bplustree.hpp:340-355 | the same when the count of the new child is moved to the sibling that got it |
| Siblings.SettledOk | src/zset/bplustree.hpp:340-355 | after that every child of the parent is well-formed with an exact count |
| Contexts.PlugInOrder | src/zset/bplustree_internal.hpp:309-383 | the keys of the tree are those left of a path, those below it and those right of it |
| Contexts.BumpOk | src/zset/bplustree.hpp:415-421 | adding d to every count on a path makes the counts right for a subtree whose size changed by d |
| Contexts.InnerHalves | src/zset/bplustree_internal.hpp:703-721 | a split full inner node plus its pending child makes two nodes of at least 4 keys around the median, keys and children in order; the right one has just 4, one below `kMinInnerKeys`, iff the child comes after one of the first six |
| Contexts.HalvesOk | src/zset/bplustree.hpp:359-379 | the two halves are well-formed, hold the same keys around the median, and use one node more |
| Order.KeysSorted | src/zset/bplustree_internal.hpp:387-423 | in a sorted tree the keys of each node are sorted, so that binary search applies |
| Order.SearchStep | src/zset/bplustree.hpp:255-275 | descending at the lower bound leaves only smaller keys on the left and only larger ones on the right |
| Order.LowerBoundSplits | src/zset/bplustree_internal.hpp:384-386 | the reference lower bound: all keys before it are below the query, none after it is, and the query is present iff it stands there |
| Order.SortedUnique | src/zset/bplustree_zset.hpp:27-33 | a strictly sorted sequence is determined by its elements, so the order of a set does not depend on its history |
| Height.SubtreeSize | src/zset/bplustree_internal.hpp:79-89 | a resting subtree of height h holds at least 8 * 5^(h-1) - 1 keys |
| Height.TreeSize | src/zset/bplustree_internal.hpp:79-89 | a tree of height h >= 2 holds at least 16 * 5^(h-2) - 1 keys |
| Height.HeightBound | src/zset/bplustree_internal.hpp:312-321 | with a 32-bit count the height is at most 14, so no path overflows its 16 records |
| Height.NodeCount | src/zset/bplustree.hpp:146-149 | there are at most as many nodes as keys, so the 32-bit node count cannot overflow |
| BPNode.Node.InitSingle | src/zset/bplustree_internal.hpp:141-144 | an empty node then holds exactly the key |
| BPNode.Node.BSearch | src/zset/bplustree_internal.hpp:387-423 | the lower bound of the query among the node's keys, with an exact match reported, though the last key is compared first |
| BPNode.Node.ShiftRight | src/zset/bplustree_internal.hpp:426-439 | opens one key slot and, in an inner node, the child slot after it; all other keys and children keep their order |
| BPNode.Node.ShiftLeft | src/zset/bplustree_internal.hpp:442-462 | takes out one key and, in an inner node, the child after it |
| BPNode.Node.LeafInsert | src/zset/bplustree_internal.hpp:201-204 | the item stands at its index, all others keep their order |
| BPNode.Node.LeafEraseRight | src/zset/bplustree_internal.hpp:194-197 | the last key is gone |
| BPNode.Node.InnerInsert | src/zset/bplustree_internal.hpp:256-259 | the key and the child after it are inserted |
| BPNode.Node.RebalanceChildToLeft | src/zset/bplustree_internal.hpp:538-585 | the memory is that of the recut tree: contents of both siblings, the new separator, and counts |
| BPNode.Node.RebalanceChildToRight | src/zset/bplustree_internal.hpp:588-641 | the same to the right |
| BPNode.Node.RebalanceChild | src/zset/bplustree_internal.hpp:473-535 | moves nothing and returns null iff neither sibling can take items; otherwise the node and position returned have a free slot and stand for the given place |
| BPNode.Node.MergeFromRight | src/zset/bplustree_internal.hpp:724-741 | the node holds its keys, the separator and the right node's keys, with the children and the count to match |
| BPNode.Node.MergeChildren | src/zset/bplustree_internal.hpp:653-665 | the parent's memory is that of the tree with both children merged |
| BPNode.Node.MergeOrRebalanceChild | src/zset/bplustree_internal.hpp:644-697 | a short child is repaired: same keys in order, every child well-formed; a node is retired iff the parent lost a key, and it is out of the tree; that is iff the child fits into one of its siblings |
| BPNode.Node.Split | src/zset/bplustree_internal.hpp:703-721 | the two halves around the median, and the counts of both |
| BPNode.Node.RebalanceWithLeft | src/zset/bplustree_internal.hpp:478-511 | the same for the left sibling alone: nothing changes iff it has no room for a move |
| BPNode.Node.RebalanceWithRight | src/zset/bplustree_internal.hpp:513-533 | the same for the right sibling alone |
| BPNode.Node.AddChild | src/zset/bplustree.hpp:322-329 | a parent with a free slot then holds the new child after the old one, counted |
| BPNode.Node.SplitChild | src/zset/bplustree.hpp:359-379 | a full parent becomes two nodes, with the new child in the right one of them and exact counts |
| BPNode.SettleInsert | src/zset/bplustree.hpp:344-352 | the pending key and child are inserted at the place found, and the child's count is taken from the node that knew it |
| Ancestors.IncreaseSubtreeCounts | src/zset/bplustree.hpp:415-421 | every node on the path counts delta more, nothing else changes |
| Ancestors.CtxCounts | src/zset/bplustree.hpp:415-421 | every stored count on a path lies between the size of the subtree below and that of the whole tree, so none wraps |
| Ancestors.FinishCounts | src/zset/bplustree.hpp:415-421 | a tree that is whole but for counts off by d along the path becomes whole |
| Insertion.RebalanceAndInsert | src/zset/bplustree.hpp:398-412 | either no sibling has room and nothing changed, or the pending key (and child) is in the tree at its place and only the counts above are one short |
| Insertion.AddStep | src/zset/bplustree.hpp:321-329 | the terminal step of the split loop |
| Insertion.RebalanceStep | src/zset/bplustree.hpp:334-356 | the split loop's attempt to rebalance a full inner node |
| Insertion.SplitStep | src/zset/bplustree.hpp:358-379 | the propagating step: the same state one level up, with one new node |
| Insertion.SplitLeafStep | src/zset/bplustree.hpp:295-307 | a full leaf is split with the item in the half where it belongs |
| Insertion.RootStep | src/zset/bplustree.hpp:382-390 | a new root above the two halves is a whole tree over the target keys |
| Cursors.PathAt | src/zset/bplustree.hpp:73-77 | every rank has a path, which leads to the key of that rank |
| Cursors.PathNamesRank | src/zset/bplustree_internal.hpp:309-383 | a path leads to one rank only |
| Cursors.CursorPath | src/zset/bplustree_internal.hpp:743-761 | the rank of a position is the number of keys left of the path plus the key's offset in its node |
| Cursors.Path.Terminal | src/zset/bplustree_internal.hpp:353-356 | the key of the path's rank |
| Cursors.Path.Rank | src/zset/bplustree_internal.hpp:744-761 | the rank that the path leads to |
| Cursors.Path.Next | src/zset/bplustree_internal.hpp:764-802 | from any position, past a leaf's end included, to the path of the next rank; empty and false exactly at the end |
| Cursors.Path.Prev | src/zset/bplustree_internal.hpp:805-834 | from any position to the path of the rank before; empty and false exactly at the start |
| Cursors.ThereAndBack | src/zset/bplustree_internal.hpp:764-834 | Next and Prev undo each other, except at the ends |
| Cursors.Path.DigRight | src/zset/bplustree_internal.hpp:837-854 | to the last key of the subtree left of a separator: its in-order predecessor |
| BTree.TargetAt | src/zset/bplustree.hpp:193-223 | inserting at the slot the search found is inserting at the lower bound of the whole sequence, and keeps it sorted |
| BTree.Located | src/zset/bplustree.hpp:255-275 | the search ends at the lower bound of the query, and reports it found iff it is in the tree |
| BTree.RanksAddUp | src/zset/bplustree.hpp:238-251 | forward and reverse rank of a key add up to size - 1 |
| BTree.BPTree.Locate | src/zset/bplustree.hpp:255-275 | the path of the search, within 14 records |
| BTree.BPTree.Contains | src/zset/bplustree.hpp:152-156 | whether the key is in the tree, for a tree that is not empty |
| BTree.BPTree.GetRank | src/zset/bplustree.hpp:238-251 | the key's index, or its index from the end; none iff it is absent |
| BTree.BPTree.ToRank | src/zset/bplustree.hpp:456-499 | the path of the given rank, by counting, with both shortcuts |
| BTree.BPTree.PickChild | src/zset/bplustree.hpp:479-493 | the child the rank falls into and the rank inside it, or the separator of that rank |
| BTree.BPTree.FromRank | src/zset/bplustree.hpp:73-77 | the path of the given rank |
| BTree.BPTree.GEQ | src/zset/bplustree.hpp:503-516 | the path to the least key not below the query, empty iff there is none |
| BTree.BPTree.LEQ | src/zset/bplustree.hpp:520-530 | the path to the greatest key not above the query, empty iff there is none |
| BTree.BPTree.Iterate | src/zset/bplustree.hpp:424-438 | the callback gets exactly the keys of the rank range in order, up to the first it refuses |
| BTree.BPTree.IterateReverse | src/zset/bplustree.hpp:441-453 | the same from the end |
| BTree.BPTree.Insert | src/zset/bplustree.hpp:193-223 | true iff the key was absent; the contents are the old ones with the key at its place, or unchanged; the tree stays valid, whichever way room was made; no node is given back |
| BTree.BPTree.InsertFirst | src/zset/bplustree.hpp:194-200 | the first key of a tree |
| BTree.BPTree.InsertToFullLeaf | src/zset/bplustree.hpp:278-396 | a whole tree over the target keys, its new nodes fresh and counted |
| BTree.BPTree.PropagateOnce | src/zset/bplustree.hpp:311-380 | one round of the split loop: finished with a whole tree, or the same state one level up |
| BTree.BPTree.PropagateSplit | src/zset/bplustree.hpp:309-395 | the split loop and what follows it |
| BTree.BPTree.GrowRoot | src/zset/bplustree.hpp:382-390 | the tree gets one level higher |
| BTree.BPTree.Delete | src/zset/bplustree.hpp:226-235 | true iff the key was there; the contents are the old ones without exactly that key; the tree stays valid; the nodes given back and those of the new tree are together those of the old one |
| BTree.BPTree.DeletePath | src/zset/bplustree.hpp:542-614 | removes exactly the key of the path's rank, from a leaf or an inner node |
| BTree.BPTree.RepairUp | src/zset/bplustree.hpp:571-613 | the repair loop ends with a whole tree over the remaining keys, or with no tree and no keys; node count exact, and every node that left the tree was given back |
| BTree.BPTree.CollapseRoot | src/zset/bplustree.hpp:572-587 | an empty root is replaced by its only child, or by nothing, and given back |
| BTree.BPTree.RepairLevel | src/zset/bplustree.hpp:592-608 | one level of the loop: the parent is what may be short now, the retired node is out of the tree and freed |
| BTree.BPTree.Clear | src/zset/bplustree.hpp:159-190 | what is given back is the post-order of the tree: every node once, after its children; nothing is left, and the node count is zero |
| BTree.BPTree.ClearNodes | src/zset/bplustree.hpp:175-187 | the loop of Clear, which reads no node that was given back |
| BTree.BPTree.DeepLeft | src/zset/bplustree.hpp:165-171 | goes down to the first leaf of a subtree without touching what was given back |
| BTree.BPTree.CreateNode | src/zset/bplustree.hpp:533-539 | a fresh empty node, counted |
| BTree.BPTree.DestroyNode | src/zset/bplustree.hpp:617-621 | the node is given back, uncounted, and unknown from then on |
| Deletion.RemoveKey | src/zset/bplustree.hpp:545-564 | the key is out of the sequence and the path leads to the leaf that is shorter now |
| Deletion.SeparatorLowered | src/zset/bplustree.hpp:551-564 | replacing a separator by its in-order predecessor and popping that from its leaf removes exactly the separator |
| Deletion.SwappedOrder | src/zset/bplustree.hpp:554-561 | the separator stands right after everything below the path that DigRight took |
| Deletion.RepairStep | src/zset/bplustree.hpp:594-599 | repairing the child and lowering the parent's count |
| Deletion.RepairedLowered | src/zset/bplustree.hpp:594-599 | the parent's count is then exact, and the parent is at most one key short |
| Clearing.PostOrderNodes | src/zset/bplustree.hpp:175-187 | the post-order names every node of the tree once |
| Clearing.ChildrenFirst | src/zset/bplustree.hpp:175-187 | in it every node comes after its children |
| ZSet.AgreeAdd | src/zset/bplustree_zset.cpp:33-41 | without a colliding hash the new key is absent from the tree, and tree and maps agree after the addition |
| ZSet.AgreeCollides | src/zset/bplustree_zset.cpp:33-41 | with a colliding hash they cannot agree, whatever the tree holds |
| ZSet.CollidingPair | src/zset/bplustree_zset.cpp:33-41 | two members with one hash: tree and maps agree with the first, and no tree agrees with both |
| ZSet.AgreeRemove | src/zset/bplustree_zset.cpp:48-58 | the member's key is in the tree, and tree and maps agree after its removal |
| ZSet.ListingOrdered | src/zset/bplustree_zset.hpp:27-33 | the order of the set lists every member exactly once, by score and then by hash |
| ZSet.InScoresAt | src/zset/bplustree_zset.cpp:136-168 | the members in a score range are a slice of that list |
| ZSet.RangeMembers | src/zset/bplustree_zset.cpp:136-168 | a member is in a score range iff its score is, and the range is in the order of the set |
| ZSet.RankedEntries | src/zset/bplustree_zset.cpp:174-207 | a range of ranks holds the member of each rank from start to stop that there is, with its score if asked for |
| ZSet.SameListing | src/zset/bplustree_zset.hpp:27-33 | two listings of the same scores under two hashes are equal iff the hashes order members of equal score alike |
| ZSet.SameScores | src/zset/bplustree_zset.hpp:27-33 | in any case the members at one place of both have the same score |
| ZSet.SwappedTie | src/zset/bplustree_zset.hpp:27-33 | two members of equal score that change places under another hash |
| ZSet.ZSetBPlus.Add | src/zset/bplustree_zset.cpp:11-42 | the member gets the score, true iff it is new; the tree stays valid; a set in which tree and maps agree keeps that iff no other member has its hash |
| ZSet.ZSetBPlus.Rescore | src/zset/bplustree_zset.cpp:18-30 | a changed score moves the member's key; if tree and maps agreed, they still do |
| ZSet.ZSetBPlus.Remove | src/zset/bplustree_zset.cpp:45-60 | exactly that member is gone, true iff it was there; if tree and maps agreed, they still do |
| ZSet.ZSetBPlus.Clear | src/zset/bplustree_zset.cpp:277-282 | nothing is left, and tree and maps agree, even if they did not after a collision |
| ZSet.ZSetBPlus.Size | src/zset/bplustree_zset.cpp:234-237 | the number of members |
| ZSet.ZSetBPlus.GetRank | src/zset/bplustree_zset.cpp:75-92 | the member's index in the order of the set, or from its end; none iff it is absent |
| ZSet.ZSetBPlus.GetRangeByScore | src/zset/bplustree_zset.cpp:136-168 | exactly the members with min <= score <= max, once each, in order |
| ZSet.ZSetBPlus.CountRange | src/zset/bplustree_zset.cpp:210-231 | the length of that range |
| ZSet.ZSetBPlus.GetRangeByRank | src/zset/bplustree_zset.cpp:174-207 | the members of the rank range, in order or from the end |
| Decimals.RoundTrip | src/stream_data.cpp:23-33 | strtoull reads back what to_string wrote, whatever follows it |
| Decimals.Reads | src/stream_data.cpp:26-34 | strtoull skips spaces, takes a sign, stops after the digits, saturates, and negates modulo 2^64 |
| Decimals.Decimal | src/stream_data.cpp:23 | numerals are decimal, and none is written with a zero in front |
| Streams.FormatParses | src/stream_data.cpp:23-34 | a generated id parses to the pair it was made of, and is not "*" |
| Streams.ParseReads | src/stream_data.cpp:26-34 | two numerals with a dash between them are the two numbers of the id, too large ones clamped |
| Streams.CompareMeans | src/stream_data.cpp:36-41 | the sign of the comparison is that of the ids as 128-bit numbers, milliseconds first |
| Streams.NextIdLater | src/stream_data.cpp:14-21 | the next generated id is after any id not after the last one, iff the sequence number is not used up in that id's millisecond |
| Streams.NextIs | src/stream_data.cpp:9-24 | without a wrap the next id is the least one that is after the last and not before the clock; with one it is number 0 of the same millisecond |
| Streams.AddReturns | src/stream_data.cpp:44-65 | refused iff the id is explicit and not after the newest entry's: nothing changes, "" is returned; otherwise the entry of the returned id is appended, an explicit id is returned as it is, and the last id is that id |
| Streams.AddKeeps | src/stream_data.cpp:44-65 | XAdd keeps ids increasing and the last id current, iff the sequence number is not exhausted |
| Streams.RunKeeps | src/stream_data.cpp:44-111 | over every run of XAdd, XDel and XTrim with any clock readings, the invariant holds after every step iff no sequence number is ever exhausted |
| Streams.ExhaustedRun | src/stream_data.cpp:16-17 | a run of two XAdd calls that breaks the order |
| Streams.GivenRising | src/stream_data.cpp:9-65 | from any stream: the ids given go on increasing iff every new one is generated without a wrap or explicit and after the last id |
| Streams.RunGives | src/stream_data.cpp:9-65 | the same for a stream from its creation on: all ids ever given are increasing iff so |
| Streams.LoweredRun | src/stream_data.cpp:50-61 | a run that keeps the invariant and exhausts nothing, and gives an id twice without a reload |
| Streams.DeleteKeeps | src/stream_data.cpp:94-102 | deleting takes out exactly the entry of that id and keeps the order |
| Streams.TrimInv | src/stream_data.cpp:104-111 | trimming keeps the invariant |
| Streams.ScanExact | src/stream_data.cpp:78-88 | for one range: what the loop collects is a prefix of the range, and all of it iff no entry of the range stands behind one past its end |
| Streams.ScanStops | src/stream_data.cpp:83 | what the loop collects are the entries of the range before the first one past its end |
| Streams.BetweenPicks | src/stream_data.cpp:78-88 | a range is the entries with start <= id <= end as numbers, at increasing places of the stream |
| Streams.AfterPicks | src/stream_data.cpp:67-76 | the same for the entries with an id after start |
| Streams.RangesExact | src/stream_data.cpp:78-88 | every range is returned in full iff the ids do not go down |
| Streams.IncreasingAscends | src/stream_data.cpp:78-88 | they do not in a stream that keeps its invariant |
| Streams.MissedEntry | src/stream_data.cpp:78-88 | after the run of ExhaustedRun, a range whose only entry is not returned |
| Streams.OrderedAgain | src/stream_data.cpp:78-102 | after one more XDel the ids do not go down though the invariant is broken |
| Streams.ReloadAppends | src/engine.cpp:236-266 | replaying entries through XAdd adds them all iff the ids are increasing |
| Streams.ReloadSame | src/engine.cpp:236-266 | every reachable stream, exhausted or not: replaying its entries reproduces them iff their ids are increasing |
| Streams.ReloadExact | src/engine.cpp:236-266 | the whole state is reproduced iff the ids are increasing and the last id given is the newest entry's |
| Streams.ReusedId | src/engine.cpp:236-266 | a run in which a reloaded stream gives a deleted entry's id again |
| Streams.StreamData.AutoGenerateId | src/stream_data.cpp:9-24 | the next id, never before the last one's clock |
| Streams.StreamData.XAdd | src/stream_data.cpp:44-65 | the whole new state and the id returned; "" iff nothing changed, for any id but "" itself |
| Streams.StreamData.XRead | src/stream_data.cpp:67-76 | the first count entries after start: only such, and without a count all of them |
| Streams.StreamData.XRange | src/stream_data.cpp:78-88 | on every stream: the first count entries of what the loop reaches; these are the first count of the range iff none of it is behind an entry past its end, or there were count before; every entry returned is in the range, and if the ids do not go down and there is no count, every entry of the range is returned |
| Streams.StreamData.XDel | src/stream_data.cpp:94-102 | the first entry of that id is gone and no other, true iff there was one |
| Streams.StreamData.XTrim | src/stream_data.cpp:104-111 | the newest maxlen entries are left, all older ones removed and counted |
| Streams.Perform | src/stream_data.cpp:44-111 | a step of a run is what the method does |
| HLL.StoredRegister | src/hll.hpp:77-96 | storing changes one register; neighbours that share its bytes keep their value |
| HLL.FourRegisters | src/hll.hpp:77-84 | three bytes as a little-endian number are four registers as digits of base 64 |
| HLL.PastArray | src/hll.hpp:77-96 | the second byte of a register is past the array iff it is the last register |
| HLL.ForeignByte | src/hll.hpp:77-96 | the byte past the array has no influence on any register, and a store neither changes it nor lets it change another byte |
| HLL.SketchesForeign | src/hll.hpp:77-84 | a sketch of a sequence of hashes stays one, whatever is written to that byte |
| HLL.ZerosMeaning | src/hll.hpp:98-106 | what the count says about the highest set bit |
| HLL.NeverEnds | src/hll.hpp:98-106 | with zero low bits no number of shifts sets bit 49 |
| HLL.LoopEnds | src/hll.hpp:98-106 | the count ends iff the value is zero or some number of shifts sets bit 49, which is iff its low 50 bits are not all zero |
| HLL.EndlessHash | src/hll.hpp:23-30 | a hash that Add never finishes with |
| HLL.HashParts | src/hll.hpp:23-26 | the register is that of bits 63 to 50, the count that of the zeros at the head of bits 49 to 0, and it ends iff these are not all zero or bits 55 to 50 are all zero |
| HLL.SketchOfSet | src/hll.hpp:23-38 | a sketch depends neither on the order of the hashes nor on repetitions |
| HLL.HyperLogLog.GetRegister | src/hll.hpp:77-84 | the packed register |
| HLL.HyperLogLog.SetRegister | src/hll.hpp:86-96 | the bytes after the store |
| HLL.CountLeadingZeros | src/hll.hpp:98-106 | terminates with the number of leading zeros of the low 50 bits |
| HLL.HyperLogLog.Add | src/hll.hpp:23-30 | the sketch of a sequence becomes that of the sequence with the hash: the register of its upper 14 bits becomes the maximum with the count, all others and the byte past the array stay |
| HLL.HyperLogLog.Merge | src/hll.hpp:32-38 | the sketches of two sequences become that of their concatenation, a sketch merged with itself included: every register is the maximum of both; the byte past the array is as before |
| Eviction.AccessKeeps | src/eviction_2q.cpp:8-30 | an access tracks its key and loses no other; the log of events tells which queue each key is in, and each queue is in the order of its keys' last events |
| Eviction.PromoteKeeps | src/eviction_2q.cpp:32-52 | a promotion conserves the keys and puts the promoted one last; beside it exactly min(protected, floor(share(n-1))) stay protected, share being the rounded product with 1 - ratio |
| Eviction.PromoteExact | src/eviction_2q.cpp:42 | where the product is exact the bound is floor((n-1)(1-ratio)) + 1 |
| Eviction.DemotedKeys | src/eviction_2q.cpp:43-48 | the demoted keys were accessed before all that stay, and go behind all probationary ones |
| Eviction.ForgetKeeps | src/eviction_2q.cpp:54-68 | removal takes out exactly that key, and leaves the queues as the log tells |
| Eviction.EvictKeeps | src/eviction_2q.cpp:70-87 | eviction takes the first key of the probationary queue, or of the protected one if that is empty, and leaves the queues as the log tells |
| Eviction.RunExplained | src/eviction_2q.cpp:8-87 | over every run of accesses, removals and evictions the log tells queues and places |
| Eviction.RunLogs | src/eviction_2q.cpp:8-30 | the accesses in the log are those of the run |
| Eviction.OnceSeen | src/eviction_2q.cpp:8-22 | a key accessed once since it became tracked is probationary; a protected key was accessed twice or more, and its place is that of its last access |
| Eviction.EvictedInTurn | src/eviction_2q.cpp:8-87 | keys accessed once are evicted in the order of these accesses, and before every protected key |
| Eviction.SeenOnceGoes | src/eviction_2q.cpp:8-87 | accesses to a, a and b leave b to be evicted first |
| Eviction.Perform | src/eviction_2q.cpp:8-87 | a step of a run is what the method does |
| Eviction.DrainAll | src/eviction_2q.cpp:70-87 | repeated GetVictim yields every tracked key once, the probationary ones first, the protected ones by age |
| Eviction.Eviction2Q.RecordAccess | src/eviction_2q.cpp:8-30 | queues, state map and log after an access |
| Eviction.Eviction2Q.PromoteToProtected | src/eviction_2q.cpp:32-52 | queues and state map after a promotion |
| Eviction.Eviction2Q.Demote | src/eviction_2q.cpp:43-48 | the demotion loop takes the least recently used surplus, and no more |
| Eviction.Eviction2Q.RemoveKey | src/eviction_2q.cpp:54-68 | queues and state map after a removal |
| Eviction.Eviction2Q.GetVictim | src/eviction_2q.cpp:70-87 | the victim, none iff nothing is tracked |
| Eviction.Eviction2Q.Size | src/eviction_2q.cpp:89-92 | the size of the state map is that of both queues together |
| Codec.LittleEndian | src/engine.cpp:13-30 | a length is written and read as four bytes, the least significant one first, and has no other form |
| Serialize.MemberForm | src/engine.cpp:51-67 | a member is its length and its bytes, written and read, whatever follows |
| Serialize.PairForm | src/engine.cpp:86-105 | a pair is the length and the bytes of its field, then of its value |
| Serialize.ScoredForm | src/engine.cpp:13-30 | a member of a sorted set is its length, its bytes and the 8 bytes of its score |
| Serialize.WholeForm | src/engine.cpp:13-105 | the stored form is the number of records, then the records one after the other |
| Serialize.OnePair | rust/src/lib.rs:40-55 | the ten bytes of one pair of two letters hold exactly that record |
| Codec.RoundTrip | src/engine.cpp:13-162 | decoding inverts encoding, with anything after it |
| Codec.PrefixRejected | src/engine.cpp:13-162 | no strict prefix of an encoding decodes |
| Codec.AllBack | rust/src/lib.rs:582-645 | reading packed records to the end of the buffer gives them all back |
| Serialize.SerializeMembers | src/engine.cpp:51-67 | the encoding of a list or a set |
| Serialize.SerializeHash | src/engine.cpp:86-105 | the encoding of a hash, in a buffer of exactly its size |
| Serialize.SerializeZset | src/engine.cpp:13-30 | the encoding of a sorted set |
| Serialize.PackZrange | src/kv_impl.cpp:137-166 | the packed entries, nothing for none |
| Serialize.PackHash | src/kv_impl.cpp:265-288 | the packed fields |
| Serialize.PackMembers | src/kv_impl.cpp:331-345 | the packed members |
| Serialize.PackAndParse | src/kv_impl.cpp:137-345 | the readers on the other side get back exactly what was packed, members of a sorted set decoded lossily |
| Deserialize.InsertedAll | src/engine.cpp:107-127 | loading the entries of a map restores it, in whatever order they were stored |
| Deserialize.LastCounts | src/engine.cpp:107-127 | of several records of a key the last counts |
| Deserialize.LoadedFirst | src/engine.cpp:69-84 | what is loaded are the first complete records, as many as are promised; loading succeeds iff there are so many |
| Deserialize.DeserializeList | src/engine.cpp:69-84 | true iff all promised items are there; the items are appended, up to the first incomplete one |
| Deserialize.DeserializeSet | src/engine.cpp:147-162 | the same for a set |
| Deserialize.DeserializeHash | src/engine.cpp:107-127 | the same for a hash |
| Deserialize.StoreAndLoadHash | src/engine.cpp:86-127 | a stored hash loads as the same map; cut short anywhere, it is refused |
| Deserialize.StoreAndLoadMembers | src/engine.cpp:51-162 | a stored list loads as the same list, and as the set of its members; cut short anywhere, both are refused |
| ZSetCodec.DeserializeZset | src/engine.cpp:32-49 | true iff all promised records are there; the records up to the first incomplete one are added, whatever their hashes; a sound set stays so iff no two of its members then have the same hash |
| ZSetCodec.StoreAndLoadZset | src/engine.cpp:13-49 | a sorted set, stored in any order and loaded into an empty one with any hash, has the same scores; it is sound iff that hash does not clash on its members, and then has the same members, the same score at every place, and the same order iff both hashes order members of equal score alike; cut short anywhere, it is refused |
| ZSetCodec.SameHash | src/engine.cpp:13-49 | loaded with the same hash it is sound and has the same members in the same order |
| StreamCodec.StreamRoundTrip | src/engine.cpp:206-266 | decoding inverts encoding for stream entries |
| StreamCodec.EntryForm | src/engine.cpp:206-234 | an entry is the length and the bytes of its id, the number of its fields, and these as pairs |
| StreamCodec.StreamForm | src/engine.cpp:206-234 | a stream is the number of entries, then the entries |
| StreamCodec.LoadedFirst | src/engine.cpp:236-266 | what is replayed are the first complete entries, as many as are promised |
| StreamCodec.StreamPrefixRejected | src/engine.cpp:236-266 | no strict prefix of a stored stream decodes |
| StreamCodec.SerializeStream | src/engine.cpp:206-234 | the encoding of a stream, in a buffer of exactly its size |
| StreamCodec.DeserializeStream | src/engine.cpp:236-266 | true iff every promised entry is complete; the entries up to the first incomplete one are replayed through XAdd, in either case |
| StreamCodec.StoreAndLoadStream | src/engine.cpp:206-266 | a stream without an entry "*", as all reachable ones are, stored and loaded, has the same entries iff their ids are increasing; cut short anywhere, it is refused |
| Readers.HashEntries.Len | rust/src/lib.rs:40-55 | the number of records an iteration yields, on every buffer |
| Readers.HashEntriesIter.Next | rust/src/lib.rs:68-81 | the record at the position, none iff it is incomplete, and the position afterwards in either case |
| Readers.CollectPairs | rust/src/lib.rs:57-61 | iterating to the first None yields exactly the records that Len counts |
| Readers.SetMembers.Len | rust/src/lib.rs:89-100 | the same for set members |
| Readers.SetMembersIter.Next | rust/src/lib.rs:113-121 | the same for set members |
| Readers.CollectMembers | rust/src/lib.rs:102-106 | the same for set members |
| Readers.MemberNext | rust/src/lib.rs:113-121 | where a call leaves the iterator: behind the member, or behind the length it could not satisfy |
| Readers.PairNext | rust/src/lib.rs:68-81 | the same for pairs |
| Readers.SilentIff | rust/src/lib.rs:68-121 | from a position on every call returns None iff no record starts at any place where a failed call can leave the iterator |
| Readers.MembersAhead | rust/src/lib.rs:113-121 | for members these are the places p, p + 4, p + 8, ... up to the end of the buffer |
| Readers.NotFused | rust/src/lib.rs:113-121 | a buffer on which that fails: next returns an item after it has returned None |
| Readers.ParseZsetEntries | rust/src/lib.rs:582-605 | all complete records, up to the first incomplete one, each member decoded lossily |
| Readers.ParseHashEntries | rust/src/lib.rs:606-629 | the same for pairs |
| Readers.ParseSetMembers | rust/src/lib.rs:631-645 | the same for members |
| Readers.ParseFields | src/kv_impl.cpp:374-388 | the field parser of xadd reads the same records, though it checks in another order |

## Left out

- BTree.BPTree.Insert: does not model the 32-bit wrap of `count_` at 2^32 keys; it requires fewer than 2^32 - 1.
- HLL.HyperLogLog.Add: requires that the count terminates; for the other hashes, given by `HLL.LoopEnds`, the program does not return.
- ZSet.ZSetBPlus.Add: scores are real numbers, so NaN, infinities and the two zeros of `double` are not modelled; the set is required to have fewer than 2^32 - 1 members.
- ZSet.ZSetBPlus.GetRangeByScore: what this and the other reading methods return while two members share a hash is not modelled.
- Eviction.MaxProtected: the rounded product with the ratio is any non-negative function of the number of keys; ratios above 1 are not modelled.
- Codec.Fits: lengths and counts of 2^32 and more, which the program truncates, are not modelled; a score is its 8 bytes.
- StreamCodec.DeserializeStream: one clock reading serves a whole reload; it matters only for a stored id "*", which no stream has.
- `RemoveRangeByScore` of the sorted set takes its own lock twice; `GetByRank` and `GetScoreByRank` ignore `reverse`, and `GetAll`, `Empty` and `Contains` would only add easy members.
- `ForceUpdate` of the tree, and the debug validation of nodes.
- `Estimate`, `MurmurHash64`, `MemoryUsage`, `LoadData` and other accessors: floating-point or heuristic values, or plain copies.
- Mutexes: each method of the sorted set, the streams and the eviction policy is one critical section, so it is atomic here.
- The engine's command methods, TTL, memory limits, RocksDB, JSON, vectors and bitmaps; `DashMap` is a mathematical map where the formats need one.
- Raw allocation and the byte layout of a node: `KeyPtr` and the `memcpy` of keys and children are key and child areas.
