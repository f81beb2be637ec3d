# Index and allocation structures of lib/, modelled and proved

This project models the data structures under `AirPortLinux/linux5.6.7/lib/` (the radix tree and the
ID allocator on it, the XArray and the bitmap allocator on it, the resizable hash table, netlink
attributes) together with the binary gcd of `asm/bitsperlong.h` and the wireless event stream of
`AirPortLinux/help_ifconfig.c`, and proves what they are for.

## How it is laid out

- **One tree, two users.** `TreeState` is the tree of `radix-tree.c` and `xarray.c` as a value: a head,
  three root tags and a map from node addresses to node records. An address names the place a node was
  allocated for, so growing and shrinking never change one; no operation looks inside an address.
  `TreeSteps`, `TreeCounts` and `TreeTags` are the structural steps and tag walks both files are built
  from, with what each keeps; `TreeWalk` and `TreeFree` are walks down, along and through the tree, and
  `TreeSearch` is the search for a free index. `Digits` is the arithmetic of positions.
- `RadixTree` (class `Root`) and `Idr` (class `IDR`) are `radix-tree.c` and the first half of `idr.c`;
  `XArray` (class `XArray`), `XArrayCursor` (class `XaState`, the `xa_state` cursor), `XArrayApi` and
  `XArrayRange` are `xarray.c`; `IdaLeaf` and `Ida` (class `IDA`) are the second half of `idr.c`.
- `RHashTable` has the steps of `rhashtable.c` as functions on a state; `RHashSystem` interleaves them
  freely, with bucket locks, any number of inserts and one rehash worker, and has the theorems about
  runs; `RHashUnique` says which tables the code attaches and when keys stay unique; `RHashCode` has the
  methods, each proved to compute its step. `NestedBuckets` is the page tree
  behind nested tables.
- `NetlinkAttr` is the attribute layout (section 2.2 of RFC 3549) and the recursive validator of
  `nlattr.c`; `NetlinkCode` its loops and buffer writes; `NetlinkFacts` says in bytes and numbers what both do.
- `Words` and `Bits` are the bit arithmetic; `EventStream` the event cursor, and `EventFacts` what it does in
  bytes and numbers.

Methods work in place on class fields as the C code does on its structures, and state their whole new
state through a ghost view; the laws are lemmas about the views. How many allocations succeed before one
fails is a number in the state that nothing constrains: `spare` in `Root` and `NestedTable`, `quick` (under
the lock) and `slow` (that may wait) in `XArray` and `IDA`. So -ENOMEM can be, and is, tied to an
allocation that was needed and failed.

## What the code turned out to do

- `linux/xarray.h` defines `CONFIG_BASE_SMALL` as 1, so nodes have 16 slots, and 16 levels of 4 bits
  cover a 64-bit index exactly.
- `__ffs()` is `fls64(x) - 1`, the highest set bit, while `radix_tree_find_next_bit()` documents the next
  one. `Root` takes a parameter that says which it is. All invariants and the freshness of IDs hold both
  ways. "Least free ID" and "no-space exactly when none is free" hold as written if and only if no jump
  of the search passes over a slot with something free up to the limit (`TreeSearch.FreeIndexExact`): with
  only ID 0 live, an allocation below an end of 10 fails with -ENOSPC (`Idr.NoSpaceAsWritten`).
- `find_next_bit()` and `find_next_zero_bit()` of `linux/bitops.h` scan without an end once a word is not
  empty and skip words from the middle. The XArray and the IDA are modelled with the meaning the
  functions are used for. `Bits.FindNextBitExact` and `Bits.FindNextInRow` say exactly when one search
  meets it; `XArrayCursor.XaState.FindMarked`, `XArrayApi.Alloc` and `XArrayApi.AllocCyclic` say exactly
  when every search on the way does, as a function of the marks.
- `xa_store_range()` with a last index of the largest word never ends its loop
  (`XArrayRange.EndsBelowMaximum`); with a first index of 0 as well, `xas_set_range()` comes to a shift of
  64, which no node has and C does not define (`XArrayRange.SetRange`).
- `xa_find()` with the free mark of an allocating array as filter stops at the first index that is marked
  and holds nothing, and returns NULL (`XArrayApi.Find`).
- `rhashtable_try_insert()` reads a table's successor without a lock after it failed to get a page of that
  table. If the page and the key come in by another insert, and a table is attached, before that, the key
  is stored twice (`RHashUnique.DuplicateRun`). It takes a nested table, which only
  `rhashtable_insert_rehash()` makes (`RHashUnique.UniqueIffFlat`). While every insert gives its key, nothing else does that
  (`RHashSystem.RunUnique`).
- `rhashtable_rehash_chain()` is done with a bucket that has no memory before it looks at the newest table,
  so a nested table none of whose pages exist is replaced even by a nested one.
- `idr_alloc_u32()` subtracts the base from max without a check: the new ID is at most max exactly when
  the base is. `idr_alloc_cyclic()` does not reject a negative start; it is compared and used as a u32.
- `ida_free()` of an ID whose leaf is absent reads a bitmap at address NULL instead of warning.
- An event of two 4-byte values is taken for a padded one. An `iw_point` event shorter than its fixed
  part can hand out a payload beyond the event, and up to version 18 so can a longer one in the padded
  form, whose length is taken from other bytes than those the size was compared with
  (`EventStream.OldPaddedPayload`).
- An attribute longer than 65535 bytes with its header is written with its length cut to 16 bits, and its
  padding is zeroed where that length says, which can be in the header (`NetlinkCode.LongAttr`).

## Model

| member | source | states |
|---|---|---|
| TreeState.BitExact | AirPortLinux/linux5.6.7/lib/radix-tree.c:947-1022 | in every tree that satisfies the invariant, a tag bit of a slot is set exactly when some index in the block of that slot carries the tag; with the free tag: it is clear exactly when every index of the block is in use |
| TreeState.RootExact | AirPortLinux/linux5.6.7/lib/radix-tree.c:446-452 | a root tag is set exactly when some index up to the tree's maximum carries the tag; the root's free flag is clear exactly when all of them are in use |
| TreeCounts.GrowInv | AirPortLinux/linux5.6.7/lib/radix-tree.c:445-469 | a new root above the root keeps the whole invariant (two-way links, counts, exact tags) and changes no entry and no tag of any index |
| TreeCounts.ShrinkInv | AirPortLinux/linux5.6.7/lib/radix-tree.c:478-550 | taking away a root that holds one leftmost entry keeps the invariant and changes no entry and no tag |
| TreeCounts.AddChildInv | AirPortLinux/linux5.6.7/lib/radix-tree.c:625-650 | linking a fresh node into an empty slot keeps the invariant and changes no entry and no tag |
| TreeCounts.DropInv | AirPortLinux/linux5.6.7/lib/radix-tree.c:553-590 | unlinking a node that holds nothing keeps the invariant and changes no entry and no tag |
| TreeCounts.ZeroIsBlank | AirPortLinux/linux5.6.7/lib/radix-tree.c:553-590 | a node whose count is 0 holds no entry, no live ID and no tag but free marks, so dropping it by its count loses nothing |
| TreeTags.ClimbStep | AirPortLinux/linux5.6.7/lib/radix-tree.c:947-1022 | between two steps of the walk up that sets or clears a tag, exactly one bit of the tree may disagree with what lies below it, and it is the one the walk looks at next |
| RadixTree.Root.constructor | AirPortLinux/linux5.6.7/include/linux/radix-tree.h:67-72 | an empty tree: nothing stored, and in an IDR every index free |
| RadixTree.Root.PushRoot | AirPortLinux/linux5.6.7/lib/radix-tree.c:432-466 | one round of radix_tree_extend is the step Grow, free flag and tag rows included |
| RadixTree.Root.Extend | AirPortLinux/linux5.6.7/lib/radix-tree.c:418-472 | a higher tree that can hold the index, or -ENOMEM; either way no entry and no tag of any index changes; an empty tree is left alone; every new node was allocated, and -ENOMEM only when no more were to be had |
| RadixTree.Root.ShrinkTree | AirPortLinux/linux5.6.7/lib/radix-tree.c:478-551 | the tree is lowered until its root is needed; no entry and no tag of any index changes |
| RadixTree.Root.DeleteNode | AirPortLinux/linux5.6.7/lib/radix-tree.c:553-591 | a node that counts nothing is freed, a parent that remains counts something, the tree is lowered; entries and tags of all indices stay |
| RadixTree.Root.NodeTagSet | AirPortLinux/linux5.6.7/lib/radix-tree.c:947-961 | exactly the tag of the one index becomes set; all summaries are right afterwards |
| RadixTree.Root.NodeTagClear | AirPortLinux/linux5.6.7/lib/radix-tree.c:1004-1022 | exactly the tag of the one index becomes clear; all summaries are right afterwards |
| RadixTree.Root.LookupSlot | AirPortLinux/linux5.6.7/lib/radix-tree.c:757-789 | the entry stored at the index, for every 64-bit index, and a slot exactly when the index is within the tree's maximum |
| RadixTree.Root.Create | AirPortLinux/linux5.6.7/lib/radix-tree.c:608-655 | a slot for the index, or -ENOMEM; entries and tags stay, and with an entry there already nothing at all changes; -ENOMEM only where the slot is not there yet, with every node that was to be had in the tree, fewer than 32 of them |
| RadixTree.Root.Insert | AirPortLinux/linux5.6.7/lib/radix-tree.c:713-740 | refines a finite map: exists exactly when the index is occupied; else the map with one more entry, or, after a failed node allocation, the same map; never out of memory where the slot is there, as for index 0 of an empty tree, or while 32 nodes are to be had; the tag checks (BUG_ON) hold |
| RadixTree.Root.Replace | AirPortLinux/linux5.6.7/lib/radix-tree.c:885-906 | the entry of one index is replaced, counts included; for an ID being allocated the leaf counts one more than its free bits show, and nothing else is out of step |
| RadixTree.Root.DeleteItem | AirPortLinux/linux5.6.7/lib/radix-tree.c:1424-1444 | the entry goes exactly when the index is taken and the item matches; it is returned; its tags become the default and nothing else changes; a live ID with a NULL pointer is removed too |
| RadixTree.Root.TakeSlot | AirPortLinux/linux5.6.7/lib/radix-tree.c:940-945 | a free ID becomes live with the given pointer, and nothing else changes |
| RadixTree.Root.GetTag | AirPortLinux/linux5.6.7/lib/radix-tree.c:1091-1117 | the tag of the index, read down the tree, is the tag of the index |
| RadixTree.Root.SetTag | AirPortLinux/linux5.6.7/lib/radix-tree.c:976-1001 | exactly one more index carries the tag; the map stays |
| RadixTree.Root.ClearTag | AirPortLinux/linux5.6.7/lib/radix-tree.c:1038-1061 | exactly that index loses the tag; the map stays |
| RadixTree.Root.GetFree | AirPortLinux/linux5.6.7/lib/radix-tree.c:1487-1557 | the free index that TreeSearch describes as a function of the free IDs, the height, the start and the limit, for either reading of __ffs; -ENOSPC exactly when there is none, and then the tree is as it was; -ENOMEM only when there is one whose leaf is missing and every node that was to be had is in the tree; entries and tags stay |
| TreeSearch.FreeIndexExact | AirPortLinux/linux5.6.7/lib/radix-tree.c:1487-1557 | what the search comes back with is free and in range, it is the start if that is free, and it is the least free index (none exactly when none is free) if and only if __ffs finds the lowest bit or no jump to the last slot with something free passes over another that has something free up to the limit |
| TreeSearch.SearchExact | AirPortLinux/linux5.6.7/lib/radix-tree.c:1510-1545 | the same for a search that has come down to any slot of the tree |
| TreeSearch.SearchSound | AirPortLinux/linux5.6.7/lib/radix-tree.c:1510-1545 | whatever bit __ffs finds, the search ends at a free index of the range or reports none |
| TreeSearch.JumpExact | AirPortLinux/linux5.6.7/lib/radix-tree.c:1523-1541 | one jump over a full slot decides: it passes live IDs only, up to the limit, exactly under that condition, and then the search goes on from its end |
| TreeSearch.FullTree | AirPortLinux/linux5.6.7/lib/radix-tree.c:1496-1501 | in a tree without a free index the search leaves for the index after the last one, as the shortcut by the root flag does |
| TreeSearch.NoSpaceExample | AirPortLinux/linux5.6.7/lib/radix-tree.c:1523-1531 | with only ID 0 live and a limit from 1 to 14 the search as written reports -ENOSPC; with the lowest bit it gives 1 |
| RadixTree.Root.FreeNodes | AirPortLinux/linux5.6.7/lib/radix-tree.c:666-689 | every node is freed, each once and after all its children; nothing is read from a freed node; the walk ends |
| RadixTree.Root.Destroy | AirPortLinux/linux5.6.7/lib/radix-tree.c:1570-1577 | an IDR that is destroyed holds no node and every ID is free |
| TreeWalk.DeleteIdrSlot | AirPortLinux/linux5.6.7/lib/radix-tree.c:1375-1391 | setting the free bit first and clearing the slot then keeps the invariant and frees exactly that ID |
| TreeWalk.TakeIdrSlot | AirPortLinux/linux5.6.7/lib/idr.c:34-57 | filling the slot first and clearing the free bit then keeps the invariant and takes exactly that ID |
| TreeWalk.ReachedHeld | AirPortLinux/linux5.6.7/lib/radix-tree.c:1424-1439 | what __radix_tree_lookup and the free bit of the slot it stops at say is whether the index is taken |
| TreeFree.WalkFree | AirPortLinux/linux5.6.7/lib/radix-tree.c:680-687 | going up from the end of a node frees that node last of its subtree and leaves the walk at the next place in post-order |
| TreeFree.InOrderMeans | AirPortLinux/linux5.6.7/lib/radix-tree.c:666-689 | an order accepted by the walk has every node once and all its children before it |
| Bits.NextBitAsWritten | AirPortLinux/linux5.6.7/lib/radix-tree.c:189-211 | with __ffs as written (the highest bit) the search gives the documented next set bit exactly when at most one bit is set from the offset on |
| Bits.NextBitExample | AirPortLinux/linux5.6.7/lib/radix-tree.c:189-211 | with IDs 1 to 15 of a leaf free the search as written comes back with 15 |
| Words.Fls64 | AirPortLinux/linux5.6.7/include/asm/bitsperlong.h:18-28 | the number of the highest set bit, from 1; 0 for 0 |
| Words.Ffs | AirPortLinux/linux5.6.7/include/asm/bitsperlong.h:32-35 | the highest set bit, not the lowest |
| Words.HighestIsFls | AirPortLinux/linux5.6.7/include/asm/bitsperlong.h:32-35 | on a row of tag bits, fls64(x) - 1 is the highest tagged slot |
| Bits.FindNextBit | AirPortLinux/linux5.6.7/include/linux/bitops.h:119-134 | what the loops of find_next_bit come to, as a function of the words of memory |
| Bits.FindNextBitExact | AirPortLinux/linux5.6.7/include/linux/bitops.h:119-134 | on a bitmap of whole words it gives the next set bit, or the size, exactly when it neither scans past the last set bit nor steps over one after skipping an empty word from the middle |
| Bits.SoundFromWord | AirPortLinux/linux5.6.7/include/linux/bitops.h:119-134 | from a multiple of 32 it always does |
| Bits.FindNextInRow | AirPortLinux/linux5.6.7/include/linux/xarray.h:1618-1642 | on a row of 16 marks it gives the next marked slot, or 16, exactly when there is one or no slot is marked at all |
| Bits.WrittenExactly | AirPortLinux/linux5.6.7/include/linux/xarray.h:1618-1642 | the same, whatever follows the row in memory |
| Idr.IDR.constructor | AirPortLinux/linux5.6.7/include/linux/idr.h:143-148 | no ID is live |
| Idr.IDR.AllocU32 | AirPortLinux/linux5.6.7/lib/idr.c:34-57 | the index that the search gives becomes live with its pointer and nothing else changes; -ENOSPC exactly when it gives none; that is the least free one from nextid - base (0 below the base) to max - base in 64 bits, or none exactly when none is free, if and only if __ffs finds the lowest bit or no jump passes anything free; -ENOMEM only when the leaf of that index is missing and no node was to be had; the new ID is at most max exactly when the base is |
| Idr.IDR.Alloc | AirPortLinux/linux5.6.7/lib/idr.c:80-93 | the same below an exclusive end, or up to INT_MAX for an end of 0 or less; -EINVAL exactly for a negative start |
| Idr.NoSpaceAsWritten | AirPortLinux/linux5.6.7/lib/idr.c:80-93 | with only ID 0 live and an end from 2 to 15 the allocator as written fails with -ENOSPC although ID 1 is free |
| Idr.IDR.AllocCyclic | AirPortLinux/linux5.6.7/lib/idr.c:118-138 | with exact searches, in terms of idr_next, start and base: the least free index from idr_next on, or from start on if idr_next as an int is below it, else, in case idr_next is above start as a u32, the least from start on, negative starts included; else what one search or the other gives; -ENOSPC exactly when both give none; idr_next moves past the new ID |
| Idr.IDR.CyclicExact | AirPortLinux/linux5.6.7/lib/idr.c:118-138 | that is the least free ID from the cursor on, or else the least from start on, if and only if the first search is exact and so is the second if there is one; only where the first search misses what is free and a second is made can that one happen to be right; with exact searches and a start of 0 or more there is none exactly when nothing is free from start to the end |
| Idr.IDR.CyclicSays | AirPortLinux/linux5.6.7/lib/idr.c:118-138 | that in numbers: where the two searches begin and end in terms of idr_next, start, end and base, negative starts and a wrapped idr_next included, and which index they come to |
| Idr.IDR.Claim | AirPortLinux/linux5.6.7/lib/idr.c:34-57 | the part on the tree: the index of the search becomes live; -ENOMEM only with its leaf missing and every node that was to be had in the tree |
| Idr.IDR.Remove | AirPortLinux/linux5.6.7/lib/idr.c:155-158 | the ID is live no more, the pointer that was stored is returned, other IDs stay |
| Idr.IDR.Find | AirPortLinux/linux5.6.7/lib/idr.c:175-178 | the pointer of a live ID, else NULL |
| Idr.IDR.Replace | AirPortLinux/linux5.6.7/lib/idr.c:293-308 | agrees with a map that may hold NULL for a live ID: -ENOENT exactly when the ID is not live |
| XArray.XArray.constructor | AirPortLinux/linux5.6.7/include/linux/xarray.h:375-380 | nothing is stored and every mark has its default: free where free entries are tracked, clear otherwise; so the free mark is exactly on what is unused |
| XArray.XArray.PushRoot | AirPortLinux/linux5.6.7/lib/xarray.c:578-611 | one round of xas_expand is the step Grow, marks included |
| XArray.XArray.SetMarkUp | AirPortLinux/linux5.6.7/lib/xarray.c:870-887 | exactly the mark of the one index becomes set; all inner marks are exact afterwards |
| XArray.XArray.ClearMarkUp | AirPortLinux/linux5.6.7/lib/xarray.c:899-919 | exactly the mark of the one index becomes clear; all inner marks are exact afterwards |
| XArray.XArray.FreeNodes | AirPortLinux/linux5.6.7/lib/xarray.c:519-549 | every node is freed, each once and after all its children; each is left with a count of 0 and every entry that is not a node turned into a retry marker; the walk ends |
| XArray.XArray.Destroy | AirPortLinux/linux5.6.7/lib/xarray.c:1986-2003 | the array is empty, its marks are those of an empty array, and all nodes are freed |
| XArrayCursor.XaState.Load | AirPortLinux/linux5.6.7/lib/xarray.c:232-246 | the entry of the index; beyond the tree the cursor is out of bounds; an error stays an error |
| XArrayCursor.XaState.Expand | AirPortLinux/linux5.6.7/lib/xarray.c:555-620 | the tree can hold the index or -ENOMEM; no entry and no mark changes; the tree gets no higher than the index needs |
| XArrayCursor.XaState.Create | AirPortLinux/linux5.6.7/lib/xarray.c:635-689 | the cursor stands at the slot of the index and the old entry is returned, or -ENOMEM, which is possible only where nothing was stored, no slot was there, and no node is to be had; no entry and no mark changes either way; new nodes lie on the ways to the index and to index 0, and each was allocated |
| XArrayCursor.XaState.Shrink | AirPortLinux/linux5.6.7/lib/xarray.c:433-468 | the tree is lowered until its root is needed; no entry and no mark changes; a cursor whose node went is out of bounds |
| XArrayCursor.XaState.DeleteNode | AirPortLinux/linux5.6.7/lib/xarray.c:477-508 | nodes that count nothing go, and the node the cursor ends at counts something; entries and marks stay; the cursor stays on the way to its index or is out of bounds |
| XArrayCursor.XaState.InitMarks | AirPortLinux/linux5.6.7/lib/xarray.c:933-946 | the marks of the index become the default ones; other marks stay |
| XArrayCursor.XaState.Store | AirPortLinux/linux5.6.7/lib/xarray.c:769-840 | refines a map: the old entry is returned, the index holds the new one, NULL resets its marks, nothing else changes; -ENOMEM only where no slot was there and no node is to be had, and then no entry and no mark changes; node counts and value counts stay exact; after an erasure the node the cursor is left at counts something |
| XArrayCursor.XaState.Nomem | AirPortLinux/linux5.6.7/lib/xarray.c:297-311 | a retry exactly after -ENOMEM when a node can be had by waiting, from the head and with a spare node |
| XArrayCursor.RoomShrinks | AirPortLinux/linux5.6.7/lib/xarray.c:279-296 | a node added on the way to the index or to the head leaves room for fewer: the measure by which every retry loop ends |
| XArrayCursor.NoMoreThanWays | AirPortLinux/linux5.6.7/lib/xarray.c:279-311 | all retries of one operation add at most 32 nodes: those on the way to the index and to index 0 |
| XArrayCursor.XaState.Find | AirPortLinux/linux5.6.7/lib/xarray.c:1081-1126 | the least index from the start up to max that holds an entry, or nothing exactly when there is none; it ends, also where the index wraps past the largest one |
| XArrayCursor.XaState.FindMarked | AirPortLinux/linux5.6.7/lib/xarray.c:1150-1226 | with find_next_bit doing what it is meant to: the least index from the start up to max that carries the mark; out of bounds at the first index the tree cannot hold, with none before it; restart when there is none up to max; and find_next_bit as written does that on every row that is read if and only if each has a marked slot from where it is read on, or none at all, as a function of the marked indices and the last index of the tree |
| MarkSearch.RowStep | AirPortLinux/linux5.6.7/lib/xarray.c:1181-1202 | which rows are read after this one |
| MarkSearch.UpSound | AirPortLinux/linux5.6.7/lib/xarray.c:1182-1190 | from the end of a node the search reads the row of its parent behind it, or higher up, or leaves the tree |
| MarkSearch.SoundAgain | AirPortLinux/linux5.6.7/lib/xarray.c:1614-1639 | for the free mark that condition is the same in a tree that has been extended meanwhile |
| XArrayCursor.XaState.SeekRound | AirPortLinux/linux5.6.7/lib/xarray.c:1181-1219 | one round of the search passes only indices without the mark and comes nearer to the end; what it reads as written is exact, and the rest is sound, exactly when all was sound before |
| XArrayApi.Load | AirPortLinux/linux5.6.7/lib/xarray.c:1298-1312 | the entry of the index, NULL for a reserved one |
| XArrayApi.Store | AirPortLinux/linux5.6.7/lib/xarray.c:1382-1399 | the map with the entry at the index (a reserved one for NULL in an allocating array), or an error and the same map; -ENOMEM only where no slot was there and all the memory there was, for 32 nodes at most, went into nodes that the index needs; the free mark stays exactly on what is unused; the retries end |
| XArrayApi.Erase | AirPortLinux/linux5.6.7/lib/xarray.c:1336-1340 | the index holds nothing, its marks are the default ones, the old entry is returned; the free mark stays exactly on what is unused |
| XArrayApi.Insert | AirPortLinux/linux5.6.7/lib/xarray.c:1485-1507 | busy exactly when the index is occupied, reserved entries included; else as a store, -ENOMEM included; the free mark stays exactly on what is unused |
| XArrayApi.CmpXchg | AirPortLinux/linux5.6.7/lib/xarray.c:1447-1466 | the entry replaces the expected one and nothing else changes; with another entry there the array stays; -ENOMEM as for a store, and only where NULL was expected and found; the free mark stays exactly on what is unused |
| XArrayApi.Alloc | AirPortLinux/linux5.6.7/lib/xarray.c:1614-1639 | the first index in range that is marked free gets the entry and is free no more; busy only when none is free; out of memory only when one is, its slot is missing and all the memory there was went into nodes it needs; while the free mark is exactly on what is unused, that is the first unused index, busy means that all are used, and the mark stays so; the retries end; find_next_bit as written does its part in all searches if and only if the rows of marks are sound from the minimum on |
| XArrayApi.AllocFindsUnused | AirPortLinux/linux5.6.7/lib/xarray.c:1594-1639 | while the free mark is exactly on what is unused, the first index marked free is the first one that holds nothing, and a range has no free mark exactly when all of it is used |
| XArrayApi.AllocCyclic | AirPortLinux/linux5.6.7/lib/xarray.c:1663-1689 | from *next, and from the minimum only when nothing is free from *next on (or memory ran out); busy only when nothing in the range is free; the wrap is reported; the free mark stays exactly on what is unused; find_next_bit as written does its part if and only if the rows are sound from where each search begins |
| XArrayApi.SetMark | AirPortLinux/linux5.6.7/lib/xarray.c:1702-1709 | exactly an occupied index gets the mark; the free mark of an allocating array is off from what is unused afterwards exactly when it is set on an occupied index |
| XArrayApi.ClearMark | AirPortLinux/linux5.6.7/lib/xarray.c:1720-1727 | exactly that index loses the mark; the free mark stays exactly on what is unused |
| XArrayApi.MarkTracks | AirPortLinux/linux5.6.7/lib/xarray.c:1702-1727 | a changed mark puts the free mark off exactly if it is that mark, set, on an index that holds something |
| XArrayApi.GetMark | AirPortLinux/linux5.6.7/lib/xarray.c:1742-1759 | the mark of the index, followed down from the root |
| XArrayApi.Find | AirPortLinux/linux5.6.7/lib/xarray.c:1815-1833 | the first entry in range that matches the filter, reserved ones skipped, or nothing exactly when the search meets nothing to stop at first; asking for the free mark of an allocating array also stops at what holds nothing |
| XArrayApi.StopsSelected | AirPortLinux/linux5.6.7/lib/xarray.c:1815-1833 | for every other filter, and for that one while the free mark is exactly on what is unused, finding nothing means that nothing in range matches |
| XArrayRange.SetRange | AirPortLinux/linux5.6.7/lib/xarray.c:1511-1540 | a block that starts at first, ends within the range, is aligned and does not leave its node, and the largest such; the sibling count does not underflow; only for the whole index space does the shift come to 64 |
| XArrayRange.StoreRange | AirPortLinux/linux5.6.7/lib/xarray.c:1560-1592 | -EINVAL exactly when last is below first; else the blocks lie end to end from first to last, and the test at the end of the loop holds after the last one exactly when last is below the largest word |
| XArrayRange.TilesPartition | AirPortLinux/linux5.6.7/lib/xarray.c:1582-1588 | every index of the range lies in exactly one block and no other index in any |
| XArrayRange.EndsBelowMaximum | AirPortLinux/linux5.6.7/lib/xarray.c:1582-1588 | after any block that ends with the range, the block of the whole index space included, that test holds exactly when last is below the largest word; with the largest word the index wraps to 0 |
| Ida.IDA.constructor | AirPortLinux/linux5.6.7/include/linux/idr.h:317-320 | no ID is live |
| Ida.IDA.AllocRange | AirPortLinux/linux5.6.7/lib/idr.c:382-477 | the least ID of the range that is not live becomes live and no other ID changes; no-space only when all are live (or the minimum is above INT_MAX); out of memory only when one is not, and either its bit needs a bitmap and none is to be had, or its leaf has no slot and all the memory there was went into nodes it needs; so never where the next bit of an inline leaf or of a bitmap is free; the retries end |
| Ida.IDA.Free | AirPortLinux/linux5.6.7/lib/idr.c:487-525 | freed exactly when the ID is live, and then exactly that ID; a warning otherwise, except that a bitmap at NULL is read exactly when the whole leaf of the ID is absent |
| Ida.IDA.TakeInline | AirPortLinux/linux5.6.7/lib/idr.c:411-422 | a bit set in the inline word takes exactly that ID |
| Ida.IDA.ToBitmap | AirPortLinux/linux5.6.7/lib/idr.c:423-436 | turning an inline word into a bitmap is invisible |
| Ida.IDA.TakeBit | AirPortLinux/linux5.6.7/lib/idr.c:438-447 | a bit set in a bitmap takes exactly that ID, and the free mark goes exactly when the bitmap is full |
| Ida.FilledLeaf | AirPortLinux/linux5.6.7/lib/idr.c:448-459 | the first ID of a leaf, kept inline or in a bitmap, takes exactly that ID |
| Ida.NextClearAsWritten | AirPortLinux/linux5.6.7/include/linux/bitops.h:84-99 | on a bitmap of 1024 bits find_next_zero_bit as written gives the next clear bit exactly when its search is sound, as it is from every multiple of 32 |
| IdaLeaf.FullLeaves | AirPortLinux/linux5.6.7/lib/idr.c:382-410 | leaves without the free mark are leaves all of whose IDs are live |
| IdaLeaf.AndNotBit | AirPortLinux/linux5.6.7/lib/idr.c:500-512 | clearing a bit of an inline word clears that bit only |
| RHashTable.SectionInv | AirPortLinux/linux5.6.7/lib/rhashtable.c:479-570 | one look of an insert under the bucket lock keeps every table's buckets matching their hashes, retired tables empty and the element count right; nothing is added to a table that has a successor |
| RHashTable.DecideFacts | AirPortLinux/linux5.6.7/lib/rhashtable.c:479-570 | whatever number of elements is read: an entry is added only where the key is absent and only to the newest table, and the next table is searched only when the key is absent from this one |
| RHashTable.ApplyInv | AirPortLinux/linux5.6.7/lib/rhashtable.c:536-570 | adding an entry, or joining the list of a key, keeps the invariant also when a table was attached since the decision |
| RHashTable.SectionSums | AirPortLinux/linux5.6.7/lib/rhashtable.c:479-570 | a look adds one object, as a new entry or to the list of its key, or nothing |
| RHashTable.DecideSays | AirPortLinux/linux5.6.7/lib/rhashtable.c:479-570 | the decision of a locked look in literal terms: a key in the chain gives the first entry with it, or joins its list with rhlist; else the next table is searched, or the insert is told to grow the table or wait, or adds, by the element count, the limit, a chain of 16 and the successor |
| RHashTable.ApplySays | AirPortLinux/linux5.6.7/lib/rhashtable.c:536-570 | its effect: one entry more in front of the chain, or one object more on its list, and one element more or not |
| RHashTable.MoveOk | AirPortLinux/linux5.6.7/lib/rhashtable.c:216-264 | moving the last entry of a chain to the newest table keeps the invariant |
| RHashTable.MoveSums | AirPortLinux/linux5.6.7/lib/rhashtable.c:216-264 | a move loses and duplicates nothing |
| RHashTable.MoveSays | AirPortLinux/linux5.6.7/lib/rhashtable.c:216-264 | which entry moves, and where it is put |
| RHashSystem.StepOk | AirPortLinux/linux5.6.7/lib/rhashtable.c:203-341 | whatever step is taken next (a decision under a bucket lock, the addition after it, a page allocated or missed, the step after a miss, an attachment, a move, a publication, an abort), the invariant of all runs stays |
| RHashSystem.RunOk | AirPortLinux/linux5.6.7/lib/rhashtable.c:203-621 | in every state of every run the objects stored are those whose insert succeeded, each once, in the bucket of its key; retired tables are empty; only an empty table is retired |
| RHashSystem.StoredOnce | AirPortLinux/linux5.6.7/lib/rhashtable.c:203-621 | in every state of every run an inserted object is in exactly one entry of exactly one table, one that is not retired, in the bucket of its hash |
| RHashSystem.RunUnique | AirPortLinux/linux5.6.7/lib/rhashtable.c:581-621 | when every insert gives its key and none that missed a page of a table without a successor goes on to one attached since, no state of any run has two entries with equal keys anywhere in the chain of tables |
| RHashSystem.RunUniqueNoFailure | AirPortLinux/linux5.6.7/lib/rhashtable.c:593-599 | in particular when page allocations fail only in tables that have a successor |
| RHashUnique.UniqueIffFlat | AirPortLinux/linux5.6.7/lib/rhashtable.c:425-470 | in the runs the code can have (a flat first table; others attached as inserts that gave up or the worker ask for them) keyed inserts keep keys unique in every run if and only if no nested table is attached; for every first size from which one can be and a limit on elements that lets the table grow |
| RHashUnique.FlatUnique | AirPortLinux/linux5.6.7/lib/rhashtable.c:581-621 | the one half without assumptions on sizes and limits |
| RHashUnique.DuplicateRun | AirPortLinux/linux5.6.7/lib/rhashtable.c:425-470 | a run of the code that ends with a key stored twice, for every hash function and seed: the first table fills until an insert is told to try again and attaches a nested one, an insert misses its page, another adds the key there, the worker replaces the nested table, the first insert goes on and adds the key again |
| RHashUnique.Fill | AirPortLinux/linux5.6.7/lib/rhashtable.c:600-619 | keyed inserts of new keys into one table end with one that is told to try again, with at most one element more than buckets |
| RHashUnique.Attaches | AirPortLinux/linux5.6.7/lib/rhashtable.c:425-455 | the nested table that insert attaches has the size rhashtable_insert_rehash asks for |
| RHashUnique.Replaces | AirPortLinux/linux5.6.7/lib/rhashtable.c:400-420 | the worker attaches a flat table behind a nested one, which a waiting insert then goes on to |
| RHashSystem.StepHeld | AirPortLinux/linux5.6.7/lib/rhashtable.c:600-612 | while nobody overtakes, the key that a lock holder is about to add stays absent from every table whatever the others do, although the lock protects neither the successor nor the element count it has read |
| RHashSystem.OneHolder | AirPortLinux/linux5.6.7/lib/rhashtable.c:600-612 | two inserts with equal keys never hold locks at once |
| RHashSystem.AddedAbsent | AirPortLinux/linux5.6.7/lib/rhashtable.c:530-570 | an insert that has not overtaken an attachment decides to add only a key that is in no table |
| RHashSystem.StepKeys | AirPortLinux/linux5.6.7/lib/rhashtable.c:203-621 | the number of entries with a key changes only when an insert adds one |
| RHashCode.HashTable.LastTable | AirPortLinux/linux5.6.7/lib/rhashtable.c:203-213 | the newest table |
| RHashCode.HashTable.LookAt | AirPortLinux/linux5.6.7/lib/rhashtable.c:479-579 | the code of one locked region is the decision of the system and its effect, which DecideSays and ApplySays state in literal terms |
| RHashCode.HashTable.GetBucket | AirPortLinux/linux5.6.7/lib/rhashtable.c:594-599 | a page is allocated only in a table without a successor; the bucket is found exactly when it has memory then |
| RHashCode.HashTable.Round | AirPortLinux/linux5.6.7/lib/rhashtable.c:590-612 | one round goes on to the next table only with the key absent from this one, a missing bucket included; without memory for the bucket of the newest table the insert is told to try again |
| RHashCode.HashTable.TryInsert | AirPortLinux/linux5.6.7/lib/rhashtable.c:581-621 | a key that is present, its buckets in memory, is found in one of the tables as they were, or the object joins its list in an rhlist table; an absent key is added when the newest bucket is in memory and has fewer than 16 entries, the elements are below the limit and the table need not grow; else the error the code gives; an added key was nowhere; the element count rises exactly when an entry was added; unique keys stay unique; nothing is added while the bucket in the newest table has no memory |
| RHashCode.HashTable.RehashOne | AirPortLinux/linux5.6.7/lib/rhashtable.c:216-264 | the last entry of the chain moves, or there is none, or the newest table is nested |
| RHashCode.HashTable.RehashChain | AirPortLinux/linux5.6.7/lib/rhashtable.c:266-285 | success exactly when the bucket has no memory or the newest table is not nested: the bucket is then empty and nothing is lost; else nothing changes |
| RHashCode.HashTable.RehashTable | AirPortLinux/linux5.6.7/lib/rhashtable.c:304-341 | the next table is published exactly when there is one and the newest is not nested or the current one has no bucket in memory; the retired table is empty; nothing is lost |
| RHashCode.HashTable.AttachNew | AirPortLinux/linux5.6.7/lib/rhashtable.c:287-302 | a new table goes behind a table that has no successor, else -EEXIST |
| NestedBuckets.NestedTable.Lookup | AirPortLinux/linux5.6.7/lib/rhashtable.c:1169-1195 | the bucket of the hash, or none exactly when its page is missing |
| NestedBuckets.NestedTable.Insert | AirPortLinux/linux5.6.7/lib/rhashtable.c:1209-1236 | the same bucket as the lookup, with the pages on the way made and no others; none only when every page that was to be had has been made; buckets in existing pages stay and those in new pages are empty |
| NestedBuckets.NestedTable.HomeInjective | AirPortLinux/linux5.6.7/lib/rhashtable.c:139-165 | different hashes below the table size have different buckets |
| NestedBuckets.NestedTable.PlaceSays | AirPortLinux/linux5.6.7/lib/rhashtable.c:1169-1190 | which slots lead to a bucket: the low bits of the hash in the first page, then nine bits a page |
| NestedBuckets.WayFits | AirPortLinux/linux5.6.7/lib/rhashtable.c:1169-1190 | every slot on the way lies within its page |
| NetlinkAttr.ParseMonotone | AirPortLinux/linux5.6.7/lib/nlattr.c:357-401 | what is accepted under some strictness flags is accepted, with the same table, under every subset of them; for every message and every set of policies, self-referencing ones included |
| NetlinkAttr.AcceptedMeans | AirPortLinux/linux5.6.7/lib/nlattr.c:157-355 | an attribute of a known type is accepted exactly when its size, its kind and flags, its text, its bit field, its nested attributes and its value are what the policy asks for |
| NetlinkAttr.ArrayAccepted | AirPortLinux/linux5.6.7/lib/nlattr.c:70-97 | an array of nested attributes is accepted exactly when every element is |
| NetlinkAttr.AttrMonotone | AirPortLinux/linux5.6.7/lib/nlattr.c:157-355 | the same for one attribute |
| NetlinkAttr.PolicyOnlyAccepts | AirPortLinux/linux5.6.7/lib/nlattr.c:357-401 | a policy decides whether a message is accepted, never what is found in it |
| NetlinkFacts.IntegerSays | AirPortLinux/linux5.6.7/lib/nlattr.c:23-45 | an integer of w bytes, w being 1, 2, 4 or 8: under strict attributes exactly w bytes are accepted, else w or more, or as many as the policy says; -EINVAL or -ERANGE otherwise |
| NetlinkFacts.RangeSays | AirPortLinux/linux5.6.7/lib/nlattr.c:99-155 | with a range, a minimum or a maximum the little-endian number of the first w bytes is accepted exactly when it is within it, signed kinds as signed |
| NetlinkFacts.PlainSays | AirPortLinux/linux5.6.7/lib/nlattr.c:157-355 | flags, exact lengths, binaries, minimum lengths, milliseconds and types without a kind or rejected: the result with its error, for every set of flags |
| NetlinkFacts.BitsSay | AirPortLinux/linux5.6.7/lib/nlattr.c:47-68 | a bit field has 8 bytes, and no bit in the value or the selector that is not selected and allowed |
| NetlinkFacts.TextSays | AirPortLinux/linux5.6.7/lib/nlattr.c:229-265 | text has a byte or more and no more than the policy allows, a final NUL aside; a NUL string has its NUL in time |
| NetlinkFacts.NestedSays | AirPortLinux/linux5.6.7/lib/nlattr.c:267-310 | nested attributes are empty, or 4 bytes or more that are accepted under the same flags, strict ones for types from strict_start_type on |
| NetlinkFacts.ParseSays | AirPortLinux/linux5.6.7/lib/nlattr.c:357-401 | one attribute: unknown types are skipped or refused, known ones validated and entered, and the next begins at the next multiple of four |
| NetlinkFacts.ParseEnds | AirPortLinux/linux5.6.7/lib/nlattr.c:385-401 | the message ends where no attribute fits; leftover bytes are an error exactly under the trailing flag |
| NetlinkCode.ParseInto | AirPortLinux/linux5.6.7/lib/nlattr.c:357-401 | the loop that fills the table fills it with the last attribute of each type, and fails exactly when the parse does |
| NetlinkCode.Find | AirPortLinux/linux5.6.7/lib/nlattr.c:491-501 | the first attribute of the type |
| NetlinkCode.SkBuff.Reserve | AirPortLinux/linux5.6.7/lib/nlattr.c:636-647 | the header, zeros from where its 16-bit length field says, and every other byte as it was |
| NetlinkCode.SkBuff.PutAttr | AirPortLinux/linux5.6.7/lib/nlattr.c:829-836 | success and the attribute appended exactly when it fits, else -EMSGSIZE and nothing changes; with a length below 65536 what is appended is the attribute as a reader expects it |
| NetlinkCode.AppendedWhole | AirPortLinux/linux5.6.7/lib/nlattr.c:636-647 | what is appended is what a reader expects exactly when the length fits 16 bits, or needs no padding, or what the misplaced zeroing cleared and what it missed were zero anyway |
| NetlinkCode.LongAttr | AirPortLinux/linux5.6.7/lib/nlattr.c:642-644 | a payload of 65533 bytes is put with a header of length 1 and type 0, whatever its type |
| NetlinkCode.EncodeAppend | AirPortLinux/linux5.6.7/lib/nlattr.c:829-836 | a put makes a written list one attribute longer |
| NetlinkFacts.EncodeSays | AirPortLinux/linux5.6.7/lib/nlattr.c:636-647 | the bytes of a written attribute, one by one |
| NetlinkCode.ReadBackFits | AirPortLinux/linux5.6.7/include/net/netlink.h:1106-1165 | an attribute that was put, at any length, is read back whole exactly when its length, header included, fits the 16-bit field |
| NetlinkCode.RoundTrip | AirPortLinux/linux5.6.7/lib/nlattr.c:357-401 | writing a list of attributes and parsing it without a policy gives, per type, the last payload written |
| NetlinkCode.RoundTripTypes | AirPortLinux/linux5.6.7/lib/nlattr.c:357-401 | and leaves no trailing bytes, with an entry for a type exactly when one of it was written |
| NetlinkCode.FindWritten | AirPortLinux/linux5.6.7/lib/nlattr.c:491-501 | nla_find gives the first attribute written with the type |
| NetlinkCode.FindAbsent | AirPortLinux/linux5.6.7/lib/nlattr.c:491-501 | and nothing when there is none |
| Words.AndNegIsLowBit | AirPortLinux/linux5.6.7/include/asm/bitsperlong.h:58-60 | r &= -r keeps the lowest set bit |
| Words.LowBitOr | AirPortLinux/linux5.6.7/include/asm/bitsperlong.h:58-60 | the lowest set bit of the two words or-ed together divides both, one of them an odd number of times |
| Words.MakeOdd | AirPortLinux/linux5.6.7/include/asm/bitsperlong.h:62-69 | shifting while the bit is clear makes an odd multiple and keeps the common divisors |
| Words.Reduce | AirPortLinux/linux5.6.7/include/asm/bitsperlong.h:74-80 | the end of the loop makes the larger argument smaller, keeps the common divisors, and its sum does not overflow |
| Words.Gcd | AirPortLinux/linux5.6.7/include/asm/bitsperlong.h:51-82 | the greatest common divisor of all pairs of words, with zero as identity; the loop ends |
| EventStream.Stream.constructor | AirPortLinux/help_ifconfig.c:512-522 | a fresh stream stands at its first byte, between no two values |
| EventStream.Stream.Extract | AirPortLinux/help_ifconfig.c:874-1070 | one extraction is the step the laws below are about: every return code, both alignment fixups, and where the cursor goes |
| EventStream.StepReachable | AirPortLinux/help_ifconfig.c:874-1070 | a cursor between two values has room for the next one in its event; a value kept from an earlier event is never used |
| EventStream.StepProgress | AirPortLinux/help_ifconfig.c:874-1070 | every extraction that reports neither the end nor a bad length moves the cursor on |
| EventStream.Drain | AirPortLinux/help_ifconfig.c:874-1070 | repeated extraction ends on every byte stream, with the end or a bad length |
| EventStream.YieldsAll | AirPortLinux/help_ifconfig.c:1029-1063 | a fixed-type event that lies in the stream yields its values one by one, with or without four bytes of padding in front, and then the cursor is at the next event |
| EventStream.YieldsExactly | AirPortLinux/help_ifconfig.c:1029-1063 | k values written without padding yield exactly those k, except two values of a 4-byte kind (12 bytes), which yield the second only |
| EventStream.PayloadInEvent | AirPortLinux/help_ifconfig.c:962-1027 | a payload is handed out only for a length its row allows; it lies in its event exactly when the event is as long as its fixed part and, in the padded form, the two bytes taken for the length count no more tokens than those the size was compared with; past version 18 the second half always holds |
| EventFacts.OneValue | AirPortLinux/help_ifconfig.c:854-866 | an event of 4 + n bytes that lies in the stream yields one value, of the n bytes behind its header, and leaves the cursor at its end: n is 16 for names and addresses, 8 for frequencies and parameters, 4 for numbers and qualities; commands up to 0x8BFF by the row counted from 0x8B00, others from 0x8C00 |
| EventFacts.ManyValues | AirPortLinux/help_ifconfig.c:1029-1063 | k such values come out one by one, unless they are two of 4 bytes |
| EventFacts.PaddedValues | AirPortLinux/help_ifconfig.c:1029-1063 | and so behind four bytes of padding; for values of 4 bytes only if there is one |
| EventFacts.Codes | AirPortLinux/help_ifconfig.c:885-932 | 0 at the end of the stream, -1 for a length of 4 or less, 2 for a command without a row, and where the cursor goes |
| EventFacts.PastEnd | AirPortLinux/help_ifconfig.c:935-950 | -2 and the next event for a value that runs past the end of the stream |
| EventFacts.NewPoint | AirPortLinux/help_ifconfig.c:962-1027 | past version 18, which bytes of an iw_point event are the length and the payload, in both forms, and when a payload is handed out |
| EventFacts.OldPoint | AirPortLinux/help_ifconfig.c:962-1027 | the same up to version 18, eight bytes later |
| EventStream.OldPaddedPayload | AirPortLinux/help_ifconfig.c:996-1007 | an event of 24 bytes at version 18, longer than its fixed part, whose payload of 200 tokens starts at its end |

## Left out

- RCU, memory barriers, lock primitives and lockdep: memory is sequentially consistent, lookups of the
  hash table without a lock are not modelled, and the tree operations are sequential.
  `RADIX_TREE_RETRY` and `XA_RETRY_ENTRY` occur only in freed nodes.
- Slab and page allocators, GFP flags and preload pools: an allocation may fail. A node comes from the
  allocator with offset 0. Memory that the code leaks (a bitmap after a failed store) stays in the
  memory map.
- The reuse of a freed node's memory for another node: an address stands for the place a node was
  allocated for, and every allocation is proved to use an address that is not in use.
- Multi-index entries of the XArray (siblings, `xas_squash_marks`, `xas_create_range`, stores of a range
  into one slot run): `XArrayRange` models which blocks `xa_store_range` chooses, not the stores.
- `XA_FLAGS_ZERO_BUSY`, `xas_pause`, `xas_prev`, `xas_next`, `xas_find_conflict`, `xa_find_after`,
  `xa_extract`: further uses of the same walks.
- XArrayCursor.XaState.Find: does not model a cursor whose offset was moved away from its index by
  `xas_pause` or a multi-index entry, because those are left out; a cursor that stands at a slot with
  something below it is one the other operations never leave behind.
- XArrayCursor.XaState.FindMarked: where a search runs past a row of marks as written, the result depends
  on the memory behind the node and is not described; when that happens is stated exactly.
- XArrayCursor.XaState.SeekRound: the same.
- XArrayApi.Alloc: the same.
- XArrayApi.AllocCyclic: the same.
- Ida.IDA.AllocRange: does not model the two bit searches as written, for the same reason. In a bitmap the
  search for a clear bit is exact from every multiple of 32 (`Ida.NextClearAsWritten`); which leaf comes
  next is the search of the marks, which `XArrayCursor.XaState.FindMarked` says exactly when to trust.
- `ida_destroy`, `idr_for_each`, `idr_get_next`, radix tree iteration and gang lookup: loops over the
  searches modelled here.
- RadixTree.Root.Replace: does not cover NULL stored in a slot of a plain tree that still carries a tag,
  because the tag then stays set on an index that holds nothing; `radix_tree_delete` clears the tags first.
- rhashtable walkers, the inline insert that hands over to `rhashtable_insert_slow`, removal, shrinking
  and the deferred worker's schedule, the hash function (any function is allowed) and the growth of tables
  beyond the choice of a size.
- NestedBuckets.NestedTable.Insert: does not model the race of two allocations for one page, because the
  compare-and-swap makes one of them win; the freeing of nested tables is left out too.
- Netlink: error reporting through `netlink_ext_ack`, `nla_policy_len`, the 64-bit and header-less
  variants of put, and the NUL-string helpers. Header fields are little-endian, and a read past the end
  of a message gives 0.
- Event stream: the rows of the two description tables are a parameter, and the laws hold for any rows;
  pointers are offsets in a memory that is arbitrary outside the stream; printing is left out.
- Byte swaps, hweight and the other bit macros, sockets, I/O Kit glue: single-function facts or stubs.
