# touchdb: verified model of its shared-memory data structures

touchdb keeps all its data in shared-memory pools and links records by offsets into them. This project models
the four structures that everything else stands on, with the updates in place that the C code makes:

- **The red-black tree** (`RbTree.dfy`): records in an arena, linked by offset both up and down, with search,
  rotations, insertion, deletion with successor splicing, and both rebalancing loops. What the records mean is a
  tree with a hole and a path to it (`RbTrees.dfy`, `RbArena.dfy`); what the tree means is a finite map
  (`RbContents.dfy`). `RbRecords.dfy` has the rotations and the deletion's rebalancing as functions on records.
- **The pool** (`Pool.dfy`, `PoolSpec.dfy`, `PoolTheorems.dfy`): a bump offset and 131072 first-in-first-out free
  lists, doubly linked through the headers of the freed blocks, in an array of bytes.
- **The database** (`Db.dfy`): allocation from the first of several pools that can serve a request, and addresses
  that name a pool and an offset.
- **The hash map** (`HashMap.dfy`, `HashMapSpec.dfy`, `HashMapSteps.dfy`): buckets of doubly linked entries with
  cached hashes, every block of which is allocated from the database, and the string layer on top of it.
- **The chain** (`Chain.dfy`, `ChainSpec.dfy`): a doubly linked list whose nodes are allocated from the database.

`Bits.dfy` has 32-bit integers and bit operations, `CStrings.dfy` has `strcmp`, `Values.dfy` has addresses and
values, and `Sequences.dfy` has what queues and chains share.

## What is proved

- Insertion and deletion change the tree's finite map at exactly the given key, and afterwards the records are
  again one acyclic tree with matching parent and child links, in order, red-black, with nothing outside the
  tree. Any run of both agrees with a reference map. A search compares at most 2 * log2(n + 1) keys, and on a
  miss it names the only place where the key can be attached.
- The pool's blocks tile the used area; every block is live or waits once in the list of its own class; live
  payloads never overlap each other or a header and are never written by the allocator; each list is a queue in
  both directions; and after any run the used area is exactly what the greatest number of blocks of each class
  live at once needs.
- Any run of puts into the hash map agrees with a reference map, and the database holds exactly one block for the
  bucket array, two for each key and two more for each string beyond what it held before.
- The chain is a sequence, read the same from both ends after every operation, and any run of operations agrees with
  a reference sequence.
- An address computed back from a live pointer is the address it was made from, with the exact condition for
  arbitrary pointers.

The postcondition `Valid()` (or `Structured()`, `Holding(...)`) on a method is the whole invariant of its
structure, spelled out in the predicate of that name; `PoolTheorems.ValidMeans` takes a pool's apart for the
theorems about it. Ghost parameters such as a path and a subtree say where in the structure a method works; they
are erased.

## Repairs

The code has slips that contradict its own mirrored branches. The methods follow the repaired form, marked by a
comment at each place. For those marked (*) `AsWritten.dfy` and `DelAsWritten.dfy` prove exactly when the code as
it stands does what the repaired form does, the other repairs in place, and give inputs at which it does not.

| where | as written | here |
|---|---|---|
| `src/touchdb_rbtree.c:115` (*) | the grandparent is painted black | red, as at `:97` |
| `src/touchdb_rbtree.c:235` (*) | `left->right_offset = left->right_offset` | the middle subtree moves under `n`, as at `:210` |
| `src/touchdb_rbtree.c:272` (*) | the comparison is with 1 | with 0, as in the search at `:66` |
| `src/touchdb_rbtree.c:277-278` | links and colour are set only below a parent, and the key never | every new node gets links, colour and key |
| `src/touchdb_rbtree.c:298`, `:353` (*) | the parent handed to the rebalancing is the removed node if the successor is its right child | it is the successor |
| `src/touchdb_pool.c:70` (*) | `>`, and no test for a negative class | `>=`, and the test that `:112` has; the `>` at `:112` is kept, since no live block has the extra class |
| `src/touchdb_map.c:75` (*) | a null header address is followed | the search ends there |
| `src/touchdb_map.c:103-118` | the map's size is not set | it starts at 0 |
| `src/touchdb_map.c:213-217` (*) | the old value is an alias of the new one, which is destroyed and returned | the old value is copied first, destroyed and returned |
| `src/touchdb_chain.c:116` (*) | the old head's `next` link is set | its `prev` link |
| `src/touchdb_chain.c:145-147` (*), `:168-170` (*) | the new end keeps its outer link | the link is cleared |
| `src/touchdb_chain.c:155`, `:175` (*) | destroying the node destroys the string of the value being returned | the value lives on, as the comment at `:150-152` asks; the destruction of a whole chain at `:301` is as written |
| `src/touchdb_chain.c:191-192` (*) | a missing successor is written through | the tail moves instead |
| `src/touchdb_chain.c:200` | the address of a node's value is used as the node | the node |
| `src/touchdb.c:241`, `:251`, `:261` | the walk over the pools advances the wrong pointer and has no end, and a new pool has no index | each pool in use is tried once, and a new pool takes the next index if one is left |

`src/touchdb_rbtree.c:148` and `:180` paint the sibling black where one expects red. They are kept: the colour is
overwritten at `:152-156` and `:185-189`, so the proofs go through with them.

## Model

| member | source | states |
|---|---|---|
| CStrings.StrcmpZero | src/touchdb_rbtree.c:64 | `strcmp` gives 0 exactly for equal keys |
| CStrings.StrcmpAntisymmetric | src/touchdb_rbtree.c:64 | swapping the arguments negates the result |
| CStrings.StrcmpIs | src/touchdb_rbtree.c:64 | the result is the difference of the bytes at the first place where the strings differ, terminators included |
| CStrings.LessTransitive | src/touchdb_rbtree.c:64-71 | the order by `strcmp` is transitive, so it is a strict total order |
| Bits.AndMask | src/touchdb_map.c:18 | masking with 2^k - 1 is the remainder modulo 2^k, for negative numbers too |
| Bits.XorRange | src/touchdb_map.c:32-33 | exclusive or stays within the range of a signed integer of any width |
| Bits.XorBits | src/touchdb_map.c:32-33 | each bit of an exclusive or is the sum of the two bits modulo 2 |
| Bits.ShrBits | src/touchdb_map.c:32-33 | the bits of a number shifted right are those of the number from there on, the sign included |
| Bits.BitIs | src/touchdb_map.c:32-33 | bit i is the number divided by 2^i, rounded down, modulo 2 |
| Bits.ToInt32 | src/touchdb_map.c:41 | wrap-around leaves an int that differs from the number by a multiple of 2^32 |
| Bits.WrapsOnce | src/touchdb_map.c:40-42 | wrapping around at every step gives what wrapping around once at the end does |
| RbTrees.InOrderPlug | src/touchdb_rbtree.h:20-27 | the in-order sequence of a whole tree around any one of its subtrees |
| RbTrees.RedBlackPlug | src/touchdb_rbtree.c:77-121 | a tree is red-black if and only if the subtree is and the way up to the root fits its black height and colour |
| RbTrees.RecoloredFacts | src/touchdb_rbtree.c:84-88 | recolouring under a red uncle keeps the order and leaves at most one red-red edge, two levels up |
| RbTrees.StraightenedFacts | src/touchdb_rbtree.c:90-98 | with a black uncle the rotations keep the order and leave no red-red edge above the new black subtree root |
| RbTrees.InsertionDone | src/touchdb_rbtree.c:120 | where the loop stops, painting the root black gives a red-black tree with the same order |
| RbTrees.SiblingExists | src/touchdb_rbtree.c:130-137 | a missing black node implies a sibling, and a red sibling has two children, so nothing null is followed |
| RbTrees.SiblingLiftedFacts | src/touchdb_rbtree.c:131-136 | turning a red sibling up keeps the order and the one missing black node, and the new sibling is black |
| RbTrees.SiblingReddenedFacts | src/touchdb_rbtree.c:138-142 | with black nephews the missing black node moves up to the parent, in the same order |
| RbTrees.BorrowedFacts | src/touchdb_rbtree.c:143-159 | with a red nephew the whole tree is red-black again, with a black root and the same order |
| RbTrees.DeletionDone | src/touchdb_rbtree.c:127-199 | where the loop stops, painting the node black makes up for the missing one |
| RbTrees.SpliceFacts | src/touchdb_rbtree.c:328-349 | a node with at most one child gives way to it: red-black again if it was red, exactly one black node missing if it was black |
| RbTrees.HeightBound | src/touchdb_rbtree.c:55-75 | 2^(height/2), rounded up, is at most the number of nodes plus one |
| RbTrees.RotatedLeftFacts | src/touchdb_rbtree.c:202-224 | a left rotation keeps the order of the items and the set of offsets, each used once |
| RbTrees.RotatedRightFacts | src/touchdb_rbtree.c:226-251 | the mirror image |
| RbArena.StatePlug | src/touchdb_rbtree.h:20-32 | records spell a subtree and its surroundings if and only if they spell the whole tree |
| RbArena.StateUnique | src/touchdb_rbtree.h:20-32 | records that spell the same tree in the same place are the same |
| RbArena.HeldTreeUnique | src/touchdb_rbtree.h:20-32 | records spell at most one tree from a root and parent |
| RbArena.LinksAt | src/touchdb_rbtree.c:27-53 | the links read from a record are its tree node's, its parent links back to it on the right side, and no cycle leads back |
| RbArena.RotatedLeftState | src/touchdb_rbtree.c:207-222 | records changed as a left rotation changes them spell the rotated tree, in the same place |
| RbArena.RotatedRightState | src/touchdb_rbtree.c:231-249 | the mirror image |
| RbRecords.LeftRotated | src/touchdb_rbtree.c:202-224 | the writes of a left rotation leave records that spell the rotated tree in the same place, and leave all records outside the neighbourhood alone |
| RbRecords.RightRotated | src/touchdb_rbtree.c:226-251 | the mirror image |
| RbArena.Replaced | src/touchdb_rbtree.c:312-327 | records changed as the splice changes them spell the tree with the successor in the removed node's place |
| RbContents.ToMapSize | src/touchdb_rbtree.c:55-75 | an ordered sequence stands for as many keys as it has items |
| RbContents.Descend | src/touchdb_rbtree.c:66-69 | going to the side the comparison names keeps the key's place below |
| RbContents.AttachmentUnique | src/touchdb_rbtree.c:55-75 | a tree has one place only where an absent key can be attached in order |
| RbContents.FoundAt | src/touchdb_rbtree.c:55-75 | the search ends at a node if and only if the key is in the map, with the map's value |
| RbContents.AttachedItem | src/touchdb_rbtree.c:263-279 | a node attached there makes the map old[k := v], in order |
| RbContents.RemovedItem | src/touchdb_rbtree.c:284-349 | the order without one node stands for the map without its key |
| RbContents.SucceededOrder | src/touchdb_rbtree.c:293-327 | putting the successor in the node's place leaves the order without that node, however deep the successor is |
| RbContents.SuccessorBalance | src/touchdb_rbtree.c:293-327 | the splice leaves the tree red-black, or one black node short where the successor was |
| RbTree.RbTree.GetNode | src/touchdb_rbtree.c:55-75 | a node if and only if the key is in the map, with its value; on a miss the parent to attach it to; one comparison for each node on the way, at most 2 * log2(n + 1) |
| RbTree.RbTree.LeftRotate | src/touchdb_rbtree.c:202-224 | the records spell the rotated tree in the same place, no record outside the neighbourhood changes, and the writes are those of the function `Rotated` |
| RbTree.RbTree.RightRotate | src/touchdb_rbtree.c:226-251 | the mirror image |
| RbTree.RbTree.RotateThereAndBack | src/touchdb_rbtree.c:202-251 | a left and then a right rotation restore every record and the root |
| RbTree.RbTree.RotateBackAndThere | src/touchdb_rbtree.c:202-251 | a right and then a left rotation restore every record and the root |
| RbTree.RbTree.Recolor | src/touchdb_rbtree.c:85-87 | the three colour writes make the recoloured tree and nothing else |
| RbTree.RbTree.StraightenLeft | src/touchdb_rbtree.c:90-98 | the rotations on the left side make the straightened tree |
| RbTree.RbTree.StraightenRight | src/touchdb_rbtree.c:108-116 | the rotations on the right side make the straightened tree |
| RbTree.RbTree.InsertStep | src/touchdb_rbtree.c:81-119 | one turn keeps the order and at most one red-red edge, and the depth of the node falls |
| RbTree.RbTree.InsertFixup | src/touchdb_rbtree.c:77-121 | ends in a red-black tree with a black root, the same order and the same records |
| RbTree.RbTree.Overwrite | src/touchdb_rbtree.c:260-262 | the map becomes old[k := v] and no record comes or goes |
| RbTree.RbTree.Link | src/touchdb_rbtree.c:267-279 | the new node is the leaf at the end of the path the search took |
| RbTree.RbTree.InsertNode | src/touchdb_rbtree.c:263-281 | the map becomes old[k := v] and the whole invariant holds again |
| RbTree.RbTree.Insert | src/touchdb_rbtree.c:253-282 | the map becomes old[k := v]; a new key takes one block of the pool with room for a node, an old one none; it fails only if the pool has none, and then changes nothing |
| RbTree.RbTree.LiftRightSibling | src/touchdb_rbtree.c:131-134 | the writes and the rotation lift the red sibling |
| RbTree.RbTree.LiftLeftSibling | src/touchdb_rbtree.c:164-167 | the mirror image |
| RbTree.RbTree.BorrowFromRight | src/touchdb_rbtree.c:144-157 | the writes and rotations make the subtree that has borrowed a black node |
| RbTree.RbTree.BorrowFromLeft | src/touchdb_rbtree.c:177-190 | the mirror image |
| RbTree.RbTree.DelTurnLeft | src/touchdb_rbtree.c:129-160 | one turn keeps the order and the one missing black node, moving it up or ending at the root; the measure of depth and colour falls |
| RbTree.RbTree.DelTurnRight | src/touchdb_rbtree.c:161-193 | the mirror image |
| RbTree.RbTree.DelFixup | src/touchdb_rbtree.c:123-200 | from one missing black node to a red-black tree with the same order; the loop ends, and its turns are those of the function `Fixup` on records |
| RbTree.RbTree.Bypass | src/touchdb_rbtree.c:298-311 | the only child takes the node's place, and the node's own record stays |
| RbTree.RbTree.Successor | src/touchdb_rbtree.c:294-296 | the leftmost node of the right subtree and the way to it |
| RbTree.RbTree.TakePlace | src/touchdb_rbtree.c:312-327 | the node has the removed node's place, links and colour, and its own key and value |
| RbTree.RbTree.Detach | src/touchdb_rbtree.c:292-349 | the order loses exactly the node; the rest is red-black or one black node short where rebalancing starts |
| RbTree.RbTree.DetachSucceeded | src/touchdb_rbtree.c:293-327 | the same for a node with two children, with the records that `DelAsWritten` starts from |
| RbTree.RbTree.Rebalance | src/touchdb_rbtree.c:351-354 | the tree is red-black again with the same order |
| RbTree.RbTree.Remove | src/touchdb_rbtree.c:291-354 | the found node's key leaves the map, its block goes back to the pool, and the whole invariant holds again |
| RbTree.RbTree.Del | src/touchdb_rbtree.c:284-355 | the map loses exactly the key, exactly its node's block goes back to the pool, and the whole invariant holds again; an absent key changes nothing |
| RbTree.Replay | src/touchdb_rbtree.c:253-355 | any run of insertions and deletions keeps the invariant and agrees with the reference map at every step; it stops only at an insertion for which the pool has no node |
| RbTree.ReplayedIs | src/touchdb_rbtree.c:253-355 | the reference map has a key if and only if the last step for it was an insertion, with that insertion's value |
| PoolSpec.ClassFits | src/touchdb_pool.c:28-33 | a request has a class if and only if it is of 1 to 1048576 bytes; its payload is then the request rounded up to a multiple of 8 |
| PoolSpec.TiledDisjoint | src/touchdb_pool.c:77-87 | carved blocks do not overlap and lie in the used area, not at offset NIL |
| PoolSpec.TiledExactly | src/touchdb_pool.c:77-87 | the first block is at 1, each takes 16 + 8 * (idx + 1) bytes, and the next block or the unused area follows at once |
| PoolSpec.TiledCovers | src/touchdb_pool.c:77-87 | each offset of the used area belongs to exactly one block |
| PoolSpec.TotalByClass | src/touchdb_pool.c:77-87 | the size of the used area by the number of blocks of each class |
| Pool.ConsistentAfterCarving | src/touchdb_pool.c:78-87 | cutting off a new block keeps the whole invariant |
| Pool.ConsistentAfterTaking | src/touchdb_pool.c:89-99 | unlinking the oldest free block keeps the whole invariant |
| Pool.ConsistentAfterFreeing | src/touchdb_pool.c:118-130 | linking a block in at the end keeps the whole invariant |
| Pool.Pool.constructor | src/touchdb_pool.c:47-55 | a new pool is consistent and has no blocks |
| Pool.Pool.Carve | src/touchdb_pool.c:77-87 | a new block, or none if and only if the area is used up, without wrap-around |
| Pool.Pool.TakeFirst | src/touchdb_pool.c:89-99 | the oldest free block, and the queue without it |
| Pool.Pool.UnlinkFirst | src/touchdb_pool.c:90-99 | the memory and the list record after the first block of a queue is linked out, and that block |
| Pool.Pool.Malloc | src/touchdb_pool.c:62-103 | fails if and only if the request is not of 1 to 1048576 bytes or its class has no block and no room, changing nothing; else one more live payload of at least the size and less than 8 bytes more, no live payload's bytes touched |
| Pool.Pool.ExhaustedMeans | src/touchdb_pool.c:77-83 | a class has no block and no room if its queue is empty and 16 + 8 * (idx + 1) more bytes would end past 104857600 |
| Pool.Pool.Free | src/touchdb_pool.c:105-131 | the block leaves the live ones and is last in its queue, no live payload's bytes touched |
| Pool.Pool.LinkLast | src/touchdb_pool.c:118-130 | the memory and the list record after a block is linked in at the end of a queue |
| Pool.Pool.LiveInside | src/touchdb_pool.c:133-152 | live payloads lie inside the pool, behind a header that is not at NIL |
| PoolTheorems.Tiling | src/touchdb_pool.c:62-131 | each used offset is in one block, and each block is live or in one place of one list, that of its class |
| PoolTheorems.ValidMeans | src/touchdb_pool.c:47-55 | a pool has 104857600 bytes and 131072 free lists, and its invariant is that of its parts |
| PoolTheorems.HeaderFields | src/touchdb_pool.h:32-37 | a block's class is at byte 8 of its header, and a free block's links to the next and the previous one of its queue at bytes 0 and 4 |
| PoolTheorems.PayloadsDisjoint | src/touchdb_pool.c:62-131 | live payloads overlap no other payload and no header |
| PoolTheorems.HighWater | src/touchdb_pool.c:76-130 | the used area is 1 plus, for each class, the greatest number of blocks ever live at once times the block size |
| PoolTheorems.WalksSpellQueue | src/touchdb_pool.c:88-130 | forward links spell the queue, backward links its reverse, place by place, both walks end at NIL, and the size is the length |
| PoolTheorems.Run | src/touchdb_pool.c:62-131 | over any run of requests and releases from a new pool, each request gets the block of its class given back longest ago, a new one at the end of the used area if none is free, or nothing if there is no room; the blocks carved for each class number the most ever live at once, and the used area is 1 plus what those take |
| Db.AddressRoundTrip | src/touchdb.c:294-311 | the search gives back pool and offset if and only if the pointer is not the first byte of a pool that begins where an earlier one ends |
| Db.LocateIs | src/touchdb.c:299-311 | the search gives the first pool whose start and end enclose the pointer, ends included, with the distance from the start, and nothing if there is none |
| Db.Db.constructor | src/touchdb.c:190-201 | a database with one empty pool |
| Db.Db.Malloc | src/touchdb.c:231-273 | a new live address that denotes the returned pointer, with room for the size, from the first of the pools in use that can serve it, the others left alone, or from one more pool if none can; null exactly if there are 10 already or no pool can; no live payload's bytes or room touched |
| Db.Db.CannotServeMeans | src/touchdb.c:231-273 | no pool, present or future, can serve a request if and only if it is not of 1 byte to 1 MB, or there are 10 pools, each without a free block of its class and without room for a new one |
| Db.Db.TryAll | src/touchdb.c:239-253 | the first pool in use that can serve the request gives a block as a pool does, and the others stay as they were |
| Db.Db.MallocInNewPool | src/touchdb.c:255-272 | a new pool serves any request whose class exists |
| Db.Db.AddPool | src/touchdb.c:255-261 | one more empty pool, the others as they were |
| Db.Db.Free | src/touchdb.c:275-287 | exactly this address is no longer live; its block is last in its queue, no other pool changes, and no live payload's bytes or room are touched |
| Db.Db.PtrOf | src/touchdb.c:289-292 | base plus offset, null beyond the pool |
| Db.Db.AddrOf | src/touchdb.c:294-316 | the first pool whose range holds the pointer, ends included; for every live payload its own address, adjacent pools or not |
| Db.Db.LiveLocated | src/touchdb.c:294-316 | the search finds every live payload |
| HashMapSpec.IndexForIsRemainder | src/touchdb_map.c:18 | the bucket of any hash, negative or not, is its remainder, below the bucket count |
| HashMapSpec.HashInRange | src/touchdb_map.c:30-34 | the hash of an int is an int |
| HashMapSpec.SignedChar | src/touchdb_map.c:41 | a signed character is the byte modulo 256, from -128 to 127 |
| HashMapSpec.HashCodeIs | src/touchdb_map.c:36-44 | the hash code is the sum of the characters times 31 to the power of their distance from the end, wrapped around |
| HashMapSpec.HashCodeExample | src/touchdb_map.c:36-44 | of "ab", and of a character past 127 |
| HashMapSpec.HashBits | src/touchdb_map.c:30-34 | each bit of the hash is the sum modulo 2 of the nine bits of the hash code at distances 0, 4, 7, 12, 16, 19, 20, 24 and 27 |
| HashMap.ComputeHashCode | src/touchdb_map.c:36-44 | that sum, computed character by character with wrap-around at each |
| HashMap.BucketCount | src/touchdb_map.c:100-105 | the least power of two that is at least min(capacity, 1073741824), with no overflow on the way |
| HashMap.Init | src/touchdb_map.c:88-119 | an empty consistent map with that many buckets, beside whatever the database holds; or nothing for a negative capacity or no memory |
| HashMap.HashMap.constructor | src/touchdb_map.c:103-118 | cleared buckets are a consistent empty map |
| HashMapSteps.OverwrittenConsistent | src/touchdb_map.c:212-219 | replacing a value and giving up the old string's blocks keeps the whole invariant and changes the map at one key |
| HashMapSteps.AppendedConsistent | src/touchdb_map.c:223-245 | linking a new entry at the end of its bucket keeps the whole invariant and changes the map at one key |
| HashMapSteps.OverwrittenTexts | src/touchdb_map.c:212-219 | the strings of all other keys stay |
| HashMapSteps.AppendedTexts | src/touchdb_map.c:223-245 | the strings of all other keys stay |
| HashMapSteps.BucketSizesSum | src/touchdb_map.c:244-245 | each bucket's size is its chain's length, and they sum to the map's size |
| HashMapSteps.BucketLinks | src/touchdb_map.c:232-245 | a bucket has the ends and the length of its chain, whose entries are linked both ways, to pool -1 and offset 0 at the ends |
| HashMapSteps.FourBlocksPerKey | src/touchdb.c:350-363 | a consistent map of strings has 1 + 4 * its size blocks |
| HashMapSteps.BlocksPerKey | src/touchdb_map.c:198-248 | a consistent map of values of any kind has, beside the pending blocks, 1 + 2 * its size + 2 * the number of its strings |
| HashMap.HashMap.GetEntry | src/touchdb_map.c:66-86 | the entry of the key, null if and only if it has none |
| HashMap.HashMap.Destroy | src/touchdb_common.c:41-55 | exactly the blocks of the value's string are given back |
| HashMap.HashMap.Allocate | src/touchdb.c:231-273 | a new block with room for the size, and the map's blocks keep theirs |
| HashMap.HashMap.FreeBlock | src/touchdb.c:275-287 | exactly this block is given back, and the others keep their room |
| HashMap.HashMap.RoomInside | src/touchdb_map.h:16-28 | every block of a consistent map has room for what it holds: 20 bytes a bucket, 40 an entry, 12 a record, and characters with their terminator |
| HashMap.HashMap.Overwrite | src/touchdb_map.c:212-219 | the map becomes old[k := v], the old value is returned, and exactly its string's blocks are given back |
| HashMap.HashMap.LinkEntry | src/touchdb_map.c:224-245 | entry, key, last entry and bucket are as the append needs them |
| HashMap.HashMap.NewBlocks | src/touchdb_map.c:224-229 | two new blocks with room for an entry and for the key with its terminator, beside an unchanged map, or none for want of memory |
| HashMap.HashMap.Append | src/touchdb_map.c:223-245 | the map becomes old[k := v] with exactly two new blocks, the entry last in its bucket; without memory for them the map stays as it was |
| HashMap.HashMap.Put2 | src/touchdb_map.c:198-248 | the map becomes old[k := v]; the replaced value and its string's blocks, or two new blocks, each with the room it needs, and the entry last in its bucket; fails only for want of memory, and then says what it said |
| HashMap.HashMap.Get2 | src/touchdb_map.c:250-258 | the map's value of the key, or null |
| HashMap.HashMap.Contains | src/touchdb_map.c:265-271 | whether the key is in the map |
| HashMap.HashMap.Size | src/touchdb_map.c:273-276 | the number of keys |
| HashMap.HashMap.Iter | src/touchdb_map.c:278-300 | every key is visited exactly once, with its value, bucket by bucket in the order of the chains |
| HashMap.HashMap.NewString | src/touchdb_str.c:32-44 | two new blocks with room for a record and for the text with its terminator, the record leads to the characters, and nothing else changed |
| HashMap.HashMap.LinkString | src/touchdb_str.c:38-40 | the value leads to the string record and that to the characters, beside an unchanged map |
| HashMap.HashMap.NewStringValue | src/touchdb.c:356-357 | a temporary value with a new string, beside an unchanged map |
| HashMap.HashMap.PutAndDrop | src/touchdb.c:359-360 | the value goes into the map and the temporary record is given back |
| HashMap.HashMap.PutStr | src/touchdb.c:350-363 | the key's string is the one put, all others stay; an overwrite exchanges exactly the old string's two blocks for two new ones; every block has room for what it holds; fails only for want of memory, and then the map says what it said |
| HashMap.HashMap.GetStr | src/touchdb.c:365-378 | the string last put for the key, or null |
| HashMap.HashMap.StorageAccounting | src/touchdb.c:350-363 | beyond the blocks that are not the map's, the database's live blocks number 1 + 2 * the number of keys + 2 * the number of strings, so 1 + 4 * the number of keys for a map of strings |
| HashMap.Replay | src/touchdb.c:350-363 | any run of string puts on a new map agrees with the reference map at every step and ends with 1 + 4 * its size more live blocks; it stops only at a put for which there is no room, and starts unless the capacity is negative or there is no room for the bucket array |
| HashMap.ReplayPuts | src/touchdb_map.c:198-248 | any run of puts of values of any kind on any map agrees with the reference map of values at every step, with that storage; it stops only at a put for which there is no room |
| HashMap.ReplayedIs | src/touchdb.c:350-363 | the reference map of strings has for each key the text put last, and no other keys |
| HashMap.ReplayedValuesIs | src/touchdb_map.c:198-248 | the reference map of values has for each key the value put last, and otherwise what it had before |
| ChainSpec.InsertedSpelled | src/touchdb_chain.c:180-195 | a node linked in before any place keeps the links spelling a sequence, which gains its value there |
| ChainSpec.RemovedSpelled | src/touchdb_chain.c:272-282 | a node linked out at any place keeps the links spelling a sequence, which loses its value there |
| ChainSpec.WalksAgree | src/touchdb_chain.c:58-84 | the walk from the header is the sequence, the walk from the tail its reverse, place by place, and both end |
| Sequences.ReversedIs | src/touchdb_chain.c:65-70 | a reversed sequence has the items of the original, counted from its end |
| ChainSpec.BlocksCount | src/touchdb_chain.c:293-303 | those are one block for each node and two more for each string |
| ChainSpec.StringCountIs | src/touchdb_chain.c:293-303 | the number of strings is that of the places whose value is of the kind of strings |
| ChainSpec.ComparedEqual | src/touchdb_chain.c:315-335 | comparison gives 0 if and only if lengths are equal and values compare equal in pairs |
| ChainSpec.ComparedIs | src/touchdb_chain.c:324-334 | the same of the sequences of values |
| ChainSpec.ComparedAntisymmetric | src/touchdb_chain.c:315-335 | with values of different kinds compared as `src/touchdb_common.c:27-28` does, swapping the chains negates the result if and only if the first values that do not compare equal, if there are any, are of one kind |
| ChainSpec.FirstDifferenceIs | src/touchdb_chain.c:324-329 | the place just named: all pairs before it compare equal, and the pair at it, if there is one, does not |
| ChainSpec.ComparedExample | src/touchdb_common.c:27-28 | a chain of an integer and a chain of a string, each less than the other |
| Chain.Chain.constructor | src/touchdb_chain.c:86-92 | the empty sequence |
| Chain.Chain.Walks | src/touchdb_chain.c:58-84 | the links spell the order of the nodes from the header, and its reverse from the tail |
| Chain.Chain.NewNode | src/touchdb_chain.c:23-46 | one new block with room for a node, with the given links and value |
| Chain.Chain.PushHead | src/touchdb_chain.c:105-119 | the sequence becomes [val] + old |
| Chain.Chain.PushTail | src/touchdb_chain.c:121-135 | the sequence becomes old + [val] |
| Chain.Chain.PullHead | src/touchdb_chain.c:137-158 | the sequence is split into its first value and the rest; the node's block is exchanged for one with room for the value |
| Chain.Chain.CutHead | src/touchdb_chain.c:142-148 | the links, header and tail spell the sequence without its first node, whose record stays |
| Chain.Chain.PullTail | src/touchdb_chain.c:160-178 | the sequence is split into the rest and its last value |
| Chain.Chain.CutTail | src/touchdb_chain.c:165-171 | the links, header and tail spell the sequence without its last node, whose record stays |
| Chain.Chain.Insert | src/touchdb_chain.c:180-195 | the value comes right after the given node, the tail included |
| Chain.Chain.LinkAfter | src/touchdb_chain.c:191-194 | the links, header and tail spell the sequence with the new node in its place |
| Chain.Chain.InsertIdx | src/touchdb_chain.c:197-202 | the value comes after the idx-th, counted from 1, in one new block; nothing happens outside the chain |
| Chain.Chain.IndexOf | src/touchdb_chain.c:204-214 | the first place whose value compares equal, counted from 0, -1 if and only if there is none |
| Chain.Chain.Node | src/touchdb_chain.c:240-249 | the first node whose value compares equal, null if and only if there is none |
| Chain.Chain.NodeIdx | src/touchdb_chain.c:216-228 | the idx-th node counted from 1, null outside the chain |
| Chain.Chain.Contains | src/touchdb_chain.c:288-291 | whether a value compares equal |
| Chain.Chain.Del | src/touchdb_chain.c:264-286 | exactly the first value that compares equal is gone, and its node is still allocated |
| Chain.Chain.Unlink | src/touchdb_chain.c:272-284 | the links, header and tail spell the sequence without the node |
| Chain.Chain.DestroyNode | src/touchdb_chain.c:48-56 | exactly the node's block, found from its pointer, and those of its value's string are given back |
| Chain.Chain.DropNode | src/touchdb_chain.c:53-54 | exactly the node's block is given back |
| Chain.Chain.Destroy | src/touchdb_chain.c:293-303 | exactly the blocks of all nodes and of their values' strings are given back |
| Chain.Compare | src/touchdb_chain.c:315-335 | the comparison of the first pair of values that do not compare equal, in the order of the arguments; if there is none, 1 for a longer first chain, -1 for a shorter one and 0 otherwise |
| ChainSpec.FirstEqualIs | src/touchdb_chain.c:244-248 | the place of the reference deletion is the first whose value compares equal |
| Chain.Take | src/touchdb_chain.c:105-286 | each push, pull, insertion and deletion does to the chain what it does to the reference sequence |
| Chain.Replay | src/touchdb_chain.c:105-286 | any run of them agrees with the reference sequence, in the values held and in those pulled, with both walks of the links, after any number of steps; it stops only for want of memory |
| AsWritten.RightRotateAsWritten | src/touchdb_rbtree.c:235 | as written, no tree is left in the place unless there is nothing to rotate |
| AsWritten.RightRotateExample | src/touchdb_rbtree.c:235 | two records that end up as each other's children |
| AsWritten.InsertColourAsWritten | src/touchdb_rbtree.c:115 | as written, the step keeps the red-black conditions, and the whole tree has them once its root is painted black, if and only if it is on the left side |
| AsWritten.InsertColourExample | src/touchdb_rbtree.c:115 | the third of three ascending keys |
| AsWritten.InsertSideAsWritten | src/touchdb_rbtree.c:272 | as written, the new key goes to its side if and only if `strcmp` does not give exactly 1 |
| AsWritten.InsertSideExample | src/touchdb_rbtree.c:272 | two keys that end up in the wrong order |
| DelAsWritten.DelParentAsWritten | src/touchdb_rbtree.c:298-353 | as written, the rebalancing is handed the place where a black node is missing, or does not look at it, if and only if the successor is not a right child that is black and has no child |
| DelAsWritten.DelRunAsWritten | src/touchdb_rbtree.c:123-200 | as written, the rebalancing runs exactly as the repaired one if that holds, or else if the removed node is black and a right child and its left child has no children; otherwise it follows a null pointer or leaves records that are no red-black tree |
| DelAsWritten.DelExample | src/touchdb_rbtree.c:298-353 | the root of three black nodes is removed, and a null pointer is followed |
| AsWritten.PoolBoundAsWritten | src/touchdb_pool.c:69-76 | as written, a 32-bit request is refused or finds an existing list, except for exactly 0, the 8 sizes past the greatest class, and sizes negative as an int |
| AsWritten.PoolBoundExample | src/touchdb_pool.c:69-76 | 1 MB and one byte, and nothing |
| AsWritten.PushHeadAsWritten | src/touchdb_chain.c:110-117 | as written, a chain is left if and only if it was empty |
| AsWritten.PullHeadAsWritten | src/touchdb_chain.c:145-147 | as written, a chain is left if and only if nothing remains in it |
| AsWritten.PullTailAsWritten | src/touchdb_chain.c:168-170 | the same at the tail |
| AsWritten.PullValueAsWritten | src/touchdb_chain.c:150-175 | as written, the pulled value keeps its string's blocks if and only if it has none |
| AsWritten.InsertAsWritten | src/touchdb_chain.c:191-192 | as written, a null pointer is followed if and only if the node is the last |
| AsWritten.ChainExample | src/touchdb_chain.c:105-178 | a chain of two nodes that neither push nor pull leaves whole |
| AsWritten.LookupAsWritten | src/touchdb_map.c:73-76 | as written, a lookup follows a null address if and only if no key of the map is in the key's bucket |
| AsWritten.LookupExample | src/touchdb_map.c:73-76 | a new map |
| AsWritten.OverwriteAsWritten | src/touchdb_map.c:213-217 | as written, the heap comes out right if and only if neither the old nor the new value has a string; the replaced value is moreover returned if and only if it is the new one; and the entry keeps its value's string if and only if the new value has none |
| AsWritten.OverwriteExample | src/touchdb_map.c:213-217 | a string replaced by an integer |

## Left out

- Mapping of files, start-up, paths and logging (`src/touchdb.c:37-229`): where pools are mapped is a parameter of
  the database, and a pool re-opened from a file is not modelled.
- `src/touchdb_util.c`, `src/touchdb_worker.c`, `src/touchdb_cli.c` and the tests: interaction and utilities.
- `src/touchdb_map2.c`, `src/touchdb_array.c`, the btree and cow_map files and the empty function bodies: unfinished.
- `touchdb_map_put` and `touchdb_map_get` (`src/touchdb_map.c:122-196`): the character interface to the same
  entries; maps here hold value records only, and storage accounting holds for maps of strings only.
- The bytes of records: tree nodes, entries, nodes and strings are typed records at the address of their block.
  Only the pool's own headers, 16 bytes before each payload, are kept in memory by position, one integer at the
  position of its first byte. Records have the sizes of 4-byte integers without padding, and every block has room
  for its record.
- The memory of the pool and its table of free lists are arrays changed in place. The arena of the tree and the
  blocks of the map and of a chain are maps from addresses to records, reassigned at one address at a time, so
  the aliasing of two addresses of different structures is excluded by the allocator's contracts only.
- A tree node's key is part of its record: `src/touchdb_rbtree.c` has no code that stores one.
- The tree's `size` field: the code never updates it. The number of keys is that of the finite map.
- Pool.Pool.Free: requires a live payload. What the code does with any other pointer is not modelled.
- Db.Db.Free: requires a live address, for the same reason.
- Where memory runs out and the code goes on through a null pointer (`src/touchdb_rbtree.c:267`,
  `src/touchdb_map.c:225`, `src/touchdb_chain.c:113`, `:154`), the methods return a failure instead.
- Chain.Chain.PullHead: after a failure to allocate the value's block nothing is stated about the chain, since the
  code has already moved the header and then writes through a null pointer.
- Chain.Chain.PullTail: the same.
- HashMap.Init: the size in bytes of the bucket array is not truncated to an int. The allocator refuses every
  array past 1 MB, where the code's truncated size may come out as another one.
- Structures as values of the map: destroying map and chain values is disabled or empty in
  `src/touchdb_common.c:41-55`, so those values own no blocks here.
- Chain.Chain.DestroyNode: where a string's characters are is a parameter, since a chain does not allocate its
  values' strings; the string's two blocks must be live and no other node's.
- Comparison of values of one kind is a parameter of a chain: `touchdb_val_cmp` (`src/touchdb_common.c:25-39`) returns
  nothing for any kind but maps, and the comparison of maps is empty.
- Signed overflow in the hash code is taken to wrap around, characters to be signed, and `strcmp` to return the
  difference of the first bytes that differ; the C standard leaves all three open.
- Locks: no code takes one.
- `touchdb_chain_iter` and `touchdb_pool_free_blk_info`: plain walks. The `touchdb_list_*` wrappers
  (`src/touchdb.c:380-440`), which keep chains as values of the map: see structures as values.
