# Verified model of the c4 userland

A Dafny model of the hard parts of the c4 operating system's userland, with proofs. Each module
follows one component:

- `AATree`, `NodeMemory`, `AndTree`: the "andtree" of libraries/c4rt, an Andersson tree with
  levels, parent pointers, a shared sentinel and duplicate keys. `AATree` is the theory of its
  shapes, `NodeMemory` says when linked nodes represent a shape, `AndTree` is the structure with
  its fields updated in place. The main result is that both repair climbs restore the full
  Andersson invariant (nil at level 0, left child one level down, right child at most on the same
  level, never two in a row), including the removal step whose extra split and skew the author
  leaves unexplained, and exactly when that extra pair is needed.
- `PageBlocks`, `AddrMan`: the page-region allocator, whose vnodes are indexed by two such trees.
  Every run tiles the region, free blocks never touch, an allocation fails exactly when no run of
  free pages is long enough, and the partition depends on the live allocations alone.
- `HeapBlocks`, `HeapMerges`, `HeapMemory`, `Alloc`: the c4alloc heap with its buckets and physical
  lists, and the one course of joins that follows when a block is given back.
- `Scenes`, `WindowList`, `Compositor`, `Pictures`: the stubbywm main loop. Only recorded regions are redrawn
  and copied, and after each frame every point whose frontmost layer has been opaque shows what a
  full repaint would. The reference looks at the layers front to back; the program paints them back to
  front. `Pictures` says what the layers come to in numbers.
- `RingBuffer`, `RingSteps`, `FileStream`: the shared ring buffer, alone and with a producer and a
  consumer interleaved, and the file read stream of ext2 server, client library and stdio on it.
- `GaloisLfsr`: the random number generator.
- `ElfStack`: the first stack page of a process, written by the loader and read by the start code.
- `Connman`: the connection protocol of many clients and one server as a step system.
- `Ext2Inodes`: inode location and update through the one block buffer.
- `Common`, `Bytes`: sequence edits, powers of two, words in byte sequences.

Structures that the program updates in place are classes; each method is tied to a function of the
old state, and the properties are proved of that function or as invariants. Linked structures carry
a ghost map of their fields, so that the pointer reasoning is about values.

Things the code does that its own comments do not say, and that the model keeps:

- The removal repair needs its second split and skew only after a deletion on the left, beside a
  right child on the same level whose inner child leans right (`AATree.SecondPairNeededLeft`).
- A request for 0 pages that finds a free vnode puts two vnodes at one offset
  (`PageBlocks.ZeroPagesBreak`, `AddrMan.Region.AllocVnode`).
- Freeing an address whose block is free already changes no block, but puts its vnode into the size
  tree twice (`AddrMan.Region.VaddrFree`).
- A heap request within 20 bytes of 2^32 wraps and gets a block too small for it (`HeapBlocks.BucketFits`).
- The ring's count of free bytes is wrong once the write index has wrapped, unless the size
  divides 2^32 (`RingBuffers.AvailableRight`). On an empty ring it is right, which is all the file
  read path needs.
- `fread` reads nothing, ever, from a file whose first block does not fit into the ring.
- `fgets` loses one byte each time it cuts a line that is longer than its buffer.
- Where recorded regions overlap, transparent window pixels are blended more than once
  (`Scenes.OverlapBlendsTwice`). For one transparent content before an opaque rest this is harmless
  exactly when a second blend changes nothing (`Scenes.VeilExact`); `Compositor.Wm.Frame` states what
  a frame leaves for every number of covering regions.
- `c4rt_connman_call` returns the reply to an earlier message when one is still unreceived
  (`Connman.StaleReply`, `Connman.CallReply`).

`dafny verify dfyconfig.toml` checks the whole project.

## Model

| member | source | states |
|---|---|---|
| AATree.GrownLeft | libraries/c4rt/src/andtree.c:330-334 | an insertion on the left that grew the subtree is repaired by skew and split, whatever shape the growth left |
| AATree.GrownRight | libraries/c4rt/src/andtree.c:330-334 | the same for an insertion on the right |
| AATree.ShrunkLeft | libraries/c4rt/src/andtree.c:363-388 | a deletion on the left that took a level away is repaired by the level drop, clamp, skew, split, split of the left child and skew |
| AATree.ShrunkRight | libraries/c4rt/src/andtree.c:363-388 | the same for a deletion on the right |
| AATree.SecondPairNeededLeft | libraries/c4rt/src/andtree.c:373-386 | after a deletion on the left, the first skew and split alone give a correct tree if and only if the right child is not on the node's own level with an inner child that leans to the right: this is when the unexplained extra pair is needed |
| AATree.SecondPairNeverNeededRight | libraries/c4rt/src/andtree.c:373-386 | after a deletion on the right the extra pair is never needed |
| AATree.InsertClimbKeepsAA | libraries/c4rt/src/andtree.c:327-335 | the insertion climb from any place of a correct tree to the root ends in a correct tree |
| AATree.RemoveClimbKeepsAA | libraries/c4rt/src/andtree.c:363-388 | the removal climb from any place of a correct tree to the root ends in a correct tree |
| AATree.InsertClimbInOrder | libraries/c4rt/src/andtree.c:327-335 | the insertion climb changes no element and no order |
| AATree.RemoveClimbInOrder | libraries/c4rt/src/andtree.c:363-388 | the removal climb changes no element and no order |
| AATree.LeafInserted | libraries/c4rt/src/andtree.c:404-410 | a new leaf anywhere in a correct tree, after the climb, is a correct tree with the item inserted at that rank |
| AATree.LeafRemoved | libraries/c4rt/src/andtree.c:337-389 | a childless node taken out of a correct tree, after the climb, leaves a correct tree without that element |
| AATree.ThinEnds | libraries/c4rt/src/andtree.c:352-360 | the node a deletion takes out is childless: the last one of a left subtree has no right child, so no left one either, and where there is no left subtree the right one is a single leaf |
| AATree.DepthBound | libraries/c4rt/src/andtree.c:63-77 | a correct tree is at most twice as deep as its level |
| AATree.SizeBound | libraries/c4rt/src/andtree.c:63-77 | a correct tree of level L has at least 2^L - 1 nodes |
| NodeMemory.RotatedRight | libraries/c4rt/src/andtree.c:217-236 | rotating a node right in linked memory is the rotation of the subtree in place: every other node, parent link and the root pointer fit the new shape |
| NodeMemory.RotatedLeft | libraries/c4rt/src/andtree.c:217-236 | the same for a rotation to the left |
| NodeMemory.GraftedAt | libraries/c4rt/src/andtree.c:317-320 | hanging a new node below a nil leaf gives the memory of the tree with that leaf |
| NodeMemory.PrunedAt | libraries/c4rt/src/andtree.c:276-291 | putting nil in the place of a childless node gives the memory of the tree without it |
| AndTrees.AndTree.RotateRight | libraries/c4rt/src/andtree.c:217-236 | the field writes are the rotation, and the root pointer follows; the sentinel's parent may change and matters to nothing |
| AndTrees.AndTree.RotateLeft | libraries/c4rt/src/andtree.c:217-236 | the same to the left |
| AndTrees.AndTree.SkewAt | libraries/c4rt/src/andtree.c:243-257 | on linked nodes, skew replaces the subtree by its skewed shape and returns its root |
| AndTrees.AndTree.SplitAt | libraries/c4rt/src/andtree.c:259-274 | on linked nodes, split replaces the subtree by its split shape and returns its root |
| AndTrees.AndTree.BinInsert | libraries/c4rt/src/andtree.c:303-324 | the search goes to the place after all elements whose key is not greater |
| AndTrees.AndTree.InsertRepair | libraries/c4rt/src/andtree.c:326-335 | the climb over parent pointers ends, though rotations change the chain, with the shape of the pure climb |
| AndTrees.AndTree.RemoveRepair | libraries/c4rt/src/andtree.c:363-388 | the removal loop ends with the shape of the pure climb |
| AndTrees.AndTree.Insert | libraries/c4rt/src/andtree.c:404-422 | the data go in at the upper bound of their key in the sorted sequence, in a fresh node, all else in order; the tree is a correct AA tree again and the count exact |
| AndTrees.AndTree.Remove | libraries/c4rt/src/andtree.c:337-389 | exactly the element of the given node goes, exactly one node is freed; the tree is a correct AA tree again and the count exact |
| AndTrees.AndTree.FindKey | libraries/c4rt/src/andtree.c:63-77 | null if and only if no element has the key; at most 2L steps, with 2^L at most one more than the number of nodes |
| AndTrees.AndTree.FindDupeData | libraries/c4rt/src/andtree.c:79-108 | among equal keys on both sides of a node the very datum is found if it is there |
| AndTrees.AndTree.FindData | libraries/c4rt/src/andtree.c:110-124 | null if and only if the datum is not an element; otherwise a node with that very datum |
| AndTrees.AndTree.DoFindAtLeast | libraries/c4rt/src/andtree.c:126-150 | the least key not below the query in a subtree |
| AndTrees.AndTree.FindAtLeast | libraries/c4rt/src/andtree.c:152-154 | null if and only if all keys are smaller; otherwise an element with the least key that is not |
| AndTrees.AndTree.Next | libraries/c4rt/src/andtree.c:164-183 | the next node of the in-order sequence, by climbing parents, or null at the end |
| AndTrees.AndTree.Previous | libraries/c4rt/src/andtree.c:185-203 | the node before in the in-order sequence, or null at the start |
| AndTrees.AndTree.RemoveKey | libraries/c4rt/src/andtree.c:443-453 | an element with the key goes if there is one, otherwise nothing changes |
| AndTrees.AndTree.RemoveData | libraries/c4rt/src/andtree.c:455-465 | the datum goes if it is there, otherwise nothing changes |
| PageBlocks.CarvedTiles | libraries/c4rt/src/addrman.c:47-56 | splitting a free block for n pages, 0 < n up to its size, keeps the tiling and leaves no two free neighbours |
| PageBlocks.ZeroPagesBreak | libraries/c4rt/src/addrman.c:47-56 | for n = 0 two blocks start at one page, and the tiling is lost in every region that has a page |
| PageBlocks.CarvedSound | libraries/c4rt/src/addrman.c:47-56 | a split leaves a sound partition if and only if n > 0 or the region has no page |
| PageBlocks.CarvedLive | libraries/c4rt/src/addrman.c:128-144 | an allocation adds exactly its own offset and size to the live ones |
| PageBlocks.CoalesceKeeps | libraries/c4rt/src/addrman.c:98-126 | merging to the fixpoint keeps the tiling and the live allocations and leaves no two free neighbours |
| PageBlocks.FreedKeeps | libraries/c4rt/src/addrman.c:98-126 | a free takes exactly its own allocation away, keeps the tiling and leaves no two free neighbours |
| PageBlocks.AllocFree | libraries/c4rt/src/addrman.c:161-182 | freeing what was just allocated restores the partition exactly |
| PageBlocks.SameLiveSamePartition | libraries/c4rt/src/addrman.c:98-126 | two partitions without free neighbours and with the same live allocations are equal |
| PageBlocks.RunFits | libraries/c4rt/src/addrman.c:128-144 | without free neighbours, a run of n free pages exists if and only if one block is free and large enough |
| PageBlocks.RunKeeps | libraries/c4rt/src/addrman.c:31-144 | every state of every run of allocations and frees tiles the region without free neighbours |
| PageBlocks.HistoryForgotten | libraries/c4rt/src/addrman.c:31-144 | two runs that end with the same live allocations end with the same partition |
| PageBlocks.LiveDisjoint | libraries/c4rt/src/addrman.c:31-144 | in every state of every run two live allocations share no page |
| AddrMan.PagesEnough | libraries/c4rt/src/addrman.c:161-163 | the page count is the least that holds the bytes |
| AddrMan.Region.SplitVnode | libraries/c4rt/src/addrman.c:31-59 | the vnode leaves the size tree, and if it is larger the layout tree before its size changes; afterwards both trees index the split partition, and it is sound if and only if the size is not 0 or the region has no page |
| AddrMan.Region.TryMerge | libraries/c4rt/src/addrman.c:61-96 | merges if and only if both vnodes are there and free; both trees then index the merged partition |
| AddrMan.Region.MergeStep | libraries/c4rt/src/addrman.c:112-125 | one turn of the merge loop: null if and only if it is over, and then the partition is the merged one; otherwise there is one vnode less, tiling and both trees hold, and merging on from the joined vnode leads to the same partition |
| AddrMan.Region.AllocVnode | libraries/c4rt/src/addrman.c:128-144 | null if and only if no free vnode is large enough; otherwise the smallest that is large enough is split, and the region is sound if and only if the size is not 0 or there is no page |
| AddrMan.Region.FreeVnode | libraries/c4rt/src/addrman.c:98-126 | the loop ends and leaves the merged partition; the region is sound afterwards if and only if the vnode was not free already, since a free one gets into the size tree a second time |
| AddrMan.Region.constructor | libraries/c4rt/src/addrman.c:146-159 | a new region is one free block |
| AddrMan.Region.VaddrAlloc | libraries/c4rt/src/addrman.c:161-170 | for every size above 0, no address if and only if no contiguous run of that many free pages exists; otherwise a best fit is carved and the address is base + 4096 * offset; the region stays sound if and only if nothing is returned, the size is above 0 or there is no page |
| AddrMan.Region.VaddrFree | libraries/c4rt/src/addrman.c:172-182 | the block at the address is freed and merged, an unknown address changes nothing; the region stays sound if and only if the address is unknown or its block was not free already |
| AddrMan.Region.VaddrSize | libraries/c4rt/src/addrman.c:184-194 | the size in bytes of the block at the address, 0 for an unknown one |
| AddrMan.Region.AddressBack | libraries/c4rt/src/addrman.c:169-174 | any address in a page gives the offset of the page back |
| HeapBlocks.SpilledMaximal | libraries/c4rt/src/alloc.c:127-142 | splitting down from the first bucket that is not empty leaves no two equal free neighbours |
| HeapBlocks.JoinedSound | libraries/c4rt/src/alloc.c:211-230 | two equal neighbours in a chunk never exceed the chunk, so the bucket number stays in 5..14 |
| HeapBlocks.CoalescedKeeps | libraries/c4rt/src/alloc.c:232-245 | coalescing to the fixpoint keeps tiling and used blocks and leaves no two equal free neighbours |
| HeapBlocks.AllocatedKeeps | libraries/c4rt/src/alloc.c:144-180 | an allocation adds exactly its block to the used ones and keeps tiling and maximal coalescing |
| HeapBlocks.FreedKeeps | libraries/c4rt/src/alloc.c:247-266 | a free takes exactly its block from the used ones and keeps tiling and maximal coalescing |
| HeapBlocks.AllocFree | libraries/c4rt/src/alloc.c:144-266 | freeing a block just allocated restores all blocks exactly |
| HeapBlocks.BytesConserved | libraries/c4rt/src/alloc.c:65-84 | used and free bytes together are the pages times 4096 |
| HeapBlocks.BytesMove | libraries/c4rt/src/alloc.c:175-176 | taking a free block moves its bytes from the free ones to the used ones |
| HeapBlocks.BucketFits | libraries/c4rt/src/alloc.c:159-172 | a bucket chosen as the source does holds header and payload if and only if adding the header does not wrap 32 bits |
| Alloc.BucketIndex | libraries/c4rt/src/alloc.c:159-172 | for every 32-bit size, the bucket c4a_alloc computes, wrapping addition and rounded-up logarithm included; it is large enough if and only if the addition does not wrap |
| HeapMemory.DListDistinct | libraries/c4rt/src/alloc.c:26-52 | a well-formed free list repeats no block |
| HeapMemory.FiledOnce | libraries/c4rt/src/alloc.c:26-63 | every free block is in exactly one place of exactly one list, its own bucket's |
| HeapMemory.PushKeeps | libraries/c4rt/src/alloc.c:43-52 | inserting a block keeps the physical list, all free lists and their contents |
| HeapMemory.UnlinkKeeps | libraries/c4rt/src/alloc.c:26-41 | unlinking a block from any place of its list keeps them |
| HeapMemory.UnlinkLoose | libraries/c4rt/src/alloc.c:26-41 | unlinking a block that is in no list changes nothing |
| HeapMemory.SplitKeeps | libraries/c4rt/src/alloc.c:102-125 | splitting keeps the physical links in both directions and the lists |
| HeapMemory.JoinKeeps | libraries/c4rt/src/alloc.c:211-230 | joining two unlinked neighbours keeps the physical links in both directions and the lists |
| HeapMemory.GrowKeeps | libraries/c4rt/src/alloc.c:65-84 | a new chunk is one more block, linked to no neighbour |
| HeapMemory.GrownKeeps | libraries/c4rt/src/alloc.c:65-84 | a new chunk can be coalesced with nothing |
| HeapMemory.MarkKeeps | libraries/c4rt/src/alloc.c:175-176 | changing a block's status keeps links and lists |
| Alloc.PayloadsApart | libraries/c4rt/src/alloc.c:159-180 | no byte of a payload lies in another block |
| Alloc.Ulog2 | libraries/c4rt/src/alloc.c:14-20 | the base 2 logarithm rounded down, 0 for 0 |
| Alloc.Heap.constructor | libraries/c4rt/src/alloc.c:268-277 | an empty heap |
| Alloc.Heap.BucketInsert | libraries/c4rt/src/alloc.c:43-52 | the field writes of the insertion, whatever the list head is |
| Alloc.Heap.InsertBlock | libraries/c4rt/src/alloc.c:43-52 | a loose block becomes the head of the list of its bucket, the invariant holds |
| Alloc.Heap.Unlink | libraries/c4rt/src/alloc.c:26-41 | the field writes of the removal, including the bucket head |
| Alloc.Heap.UnlinkBlock | libraries/c4rt/src/alloc.c:26-41 | a listed block leaves its list and is loose with its links cleared; a loose one changes nothing |
| Alloc.Heap.BucketPop | libraries/c4rt/src/alloc.c:54-63 | null if and only if the list is empty, otherwise its first block, loose |
| Alloc.Heap.Grow | libraries/c4rt/src/alloc.c:65-84 | one chunk of four pages more, filed in bucket 14 |
| Alloc.Heap.FindUpwardsBucket | libraries/c4rt/src/alloc.c:86-100 | the first bucket from the index on that holds a block; the heap grows if and only if there is none |
| Alloc.Heap.SplitBlock | libraries/c4rt/src/alloc.c:102-125 | the block list is halved at that place |
| Alloc.Heap.BucketSpillover | libraries/c4rt/src/alloc.c:127-142 | a block of the upper bucket is split down, its halves filed, and it is first in the lower bucket |
| Alloc.Heap.GetNodeFromBucket | libraries/c4rt/src/alloc.c:144-157 | the smallest sufficient free block is split to size and returned loose; the second unlink does nothing |
| Alloc.Heap.DoCoalesce | libraries/c4rt/src/alloc.c:211-230 | joins if and only if both are free, equal and linked neighbours |
| Alloc.Heap.Coalesce | libraries/c4rt/src/alloc.c:232-245 | the loop ends with the fixpoint, and the bucket number never leaves the array |
| Alloc.Heap.Alloc | libraries/c4rt/src/alloc.c:159-180 | NULL if and only if size + 20 exceeds 16384, then nothing changes; otherwise a payload of at least size bytes in a block that was free, the used blocks plus that one, pages added if and only if nothing was large enough; tiling, lists and maximal coalescing kept |
| Alloc.Heap.Release | libraries/c4rt/src/alloc.c:247-266 | a block that is not in use is refused and nothing changes; otherwise exactly it is freed and joined with its neighbours in the one lawful course, everything kept: the free block it ends up in takes in the block before if that can be joined, else the one after if that can be, and starts at the block given back if and only if no block before is reached |
| HeapMerges.Course | libraries/c4rt/src/alloc.c:232-245 | coalescing joins the neighbour of the size reached at each step; where both sides have one the block before is first and then the sides alternate, until neither has one; all blocks not joined stay |
| HeapMerges.OneCourse | libraries/c4rt/src/alloc.c:232-245 | the blocks leave only one lawful course of joins, so it determines the result |
| HeapMerges.FreedAbsorbs | libraries/c4rt/src/alloc.c:232-266 | said of the blocks alone: what the free block covers, and that it starts at the block given back if and only if the block before is not free in its chunk, or smaller, or the blocks after do not have all sizes up to its own |
| HeapMerges.BeforeFirst | libraries/c4rt/src/alloc.c:232-245 | between two free blocks of its own size a block given back is joined with the one before |
| HeapMerges.AfterThenBefore | libraries/c4rt/src/alloc.c:232-245 | a block joined with the one after may then fit the one before, and the free block starts there |
| Scenes.PaintedVisible | programs/stubbywm/src/main.c:90-125 | where the frontmost layer that covers a point is opaque there, painting back to front, contents any positive number of times, shows that layer |
| Scenes.ShownVisible | programs/stubbywm/src/main.c:139-307 | a full repaint shows the frontmost layer that covers a point, if it is opaque there |
| Scenes.RenderedShown | programs/stubbywm/src/main.c:139-307 | a repainted point shows what a full repaint would, whatever the back buffer held: always if one region covers it, and however many do if the frontmost layer is opaque there |
| Scenes.VeilExact | programs/stubbywm/src/main.c:90-125 | where a transparent content lies in front of an opaque rest, a point shows the same as a full repaint for every number of covering regions if and only if drawing the pixel a second time changes nothing |
| Scenes.OverlapBlendsTwice | programs/stubbywm/src/main.c:163-197 | a scene of one window with a transparent pixel, under two updates that overlap, shows something else there than a full repaint, whatever the buffer held |
| Scenes.CoveringDamaged | programs/stubbywm/src/main.c:144-151 | a point is painted at least once if and only if some recorded region covers it |
| Scenes.WindowInRegion | programs/stubbywm/src/main.c:370-384 | a window with its decorations changes nothing outside the region recorded for it |
| Scenes.CursorInRegion | programs/stubbywm/src/main.c:360-368 | the cursor changes nothing outside the region recorded for it |
| Scenes.WithoutWindow | programs/stubbywm/src/main.c:256-264 | outside its region a window may be anywhere in the order, or missing |
| WindowLists.WindowList.Insert | programs/stubbywm/src/winlist.c:8-27 | the window is appended, the list stays doubly linked |
| WindowLists.WindowList.Remove | programs/stubbywm/src/winlist.c:29-47 | exactly the node's window goes, the list stays doubly linked |
| Compositor.AddedCovers | programs/stubbywm/src/main.c:43-56 | whatever was damaged, and the new region, stays damaged, also when the list collapses |
| Compositor.RaiseUnseen | programs/stubbywm/src/main.c:401-409 | raising a window changes nothing outside its region |
| Compositor.ChangeUnseen | programs/stubbywm/src/main.c:411-422 | moving or refilling a window changes nothing outside its old and new regions |
| Compositor.AfterOpaque | programs/stubbywm/src/main.c:480-523 | every event keeps the scene opaque when the clients' contents are |
| Compositor.FramePixelShown | programs/stubbywm/src/main.c:486-493 | a frame leaves at a point what a full repaint would, if the point was current before or is covered, and at most one region covers it or its frontmost layer is opaque there |
| Compositor.Wm.AllocUpdate | programs/stubbywm/src/main.c:43-56 | a slot below 128; the 128th entry collapses the list to one update of the whole screen |
| Compositor.Wm.UpdateRegion | programs/stubbywm/src/main.c:72-81 | the region, ordered and cut to the screen, is added |
| Pictures.RegionEitherWay | programs/stubbywm/src/main.c:67-81 | the corners may come in either order: the one higher up, or further left in the same row, becomes the lower one |
| Compositor.Wm.UpdateWindowRegion | programs/stubbywm/src/main.c:370-384 | the window's region with decorations is added, within the screen, and nothing damaged is lost |
| Pictures.RegionIsFrame | programs/stubbywm/src/main.c:370-384 | the region recorded for a window is the window with its frame, within the screen, and no more |
| Compositor.Wm.UpdateMouseRegion | programs/stubbywm/src/main.c:360-368 | the same for the cursor |
| Pictures.RegionIsCursor | programs/stubbywm/src/main.c:360-368 | the region recorded for the cursor is the cursor, within the screen |
| Compositor.Wm.DrawPixel | programs/stubbywm/src/main.c:90-125 | one pixel is blended if it is on the screen |
| Pictures.Blends | programs/stubbywm/src/main.c:83-125 | alpha 0 leaves the pixel, alpha 0xff its own 24 bits, and any other alpha mixes each of the three channels on its own, alpha 255ths of the way between the two and rounded down |
| Compositor.Wm.DrawRect | programs/stubbywm/src/main.c:127-133 | the rectangle is painted over what was there, off-screen parts left out |
| Compositor.Wm.DrawMouse | programs/stubbywm/src/main.c:135-137 | the cursor is painted, green pixels left out |
| Pictures.CursorShows | programs/stubbywm/src/main.c:135-137 | the cursor, row by row, is in front of everything; where it is pure green the scene shows as if there were none |
| Compositor.Wm.DrawBackground | programs/stubbywm/src/main.c:139-151 | the pattern where a region covers, nothing elsewhere |
| Pictures.BackdropBits | programs/stubbywm/src/main.c:139-151 | every bit of the pattern: the 8-bit number, the same from bit 9 on, and without its lowest bit from bit 16 on |
| Compositor.Wm.DrawWindow | programs/stubbywm/src/main.c:163-197 | the contents once for every region that covers a point, nothing elsewhere; all reads lie in the client's buffer |
| Compositor.Wm.DrawWindows | programs/stubbywm/src/main.c:256-264 | all windows and decorations, in list order |
| Pictures.FrameShows | programs/stubbywm/src/main.c:199-254 | the contents lie in a frame without gaps, 3 points to the sides and below and 25 above, with the bright bar in the title |
| Pictures.StatusShows | programs/stubbywm/src/main.c:266-307 | the status bar with its three boxes, in points |
| Compositor.Wm.DrawFramebuffer | programs/stubbywm/src/main.c:334-358 | exactly the points covered by a region are copied |
| Compositor.Wm.Frame | programs/stubbywm/src/main.c:486-493 | for every scene, what every point shows after a frame; so, point by point, what a full repaint would where at most one region covers it or the frontmost layer is opaque, if it was current or covered |
| Compositor.Wm.HandleMouse | programs/stubbywm/src/main.c:386-433 | raise, drag or neither, and the pointer moved; all that changes on screen is recorded; the pointer moves right by dx and up by dy, a left press brings the window pointed at to the front and moves none, a right drag moves just that window by the same way, each as far as the edges of the screen let it |
| Compositor.MouseMeans | programs/stubbywm/src/main.c:386-433 | the same said of scenes: which window is pointed at, and what becomes of pointer, order and positions for each combination of buttons |
| Compositor.DragFollows | programs/stubbywm/src/main.c:411-433 | a right drag that no edge cuts short leaves the window where it was relative to the pointer, and all other windows, the order and the sizes as they were |
| Compositor.Wm.HandleButtons | programs/stubbywm/src/main.c:393-427 | the topmost window under the pointer is raised or dragged or, without a button or a window, nothing changes; what changes on screen is recorded |
| Compositor.Wm.TopmostHit | programs/stubbywm/src/main.c:393-399 | the topmost window under the pointer, or null if there is none |
| Compositor.Wm.FindClient | programs/stubbywm/src/main.c:456-466 | the first window with the id, null if there is none |
| Compositor.Wm.HandleClientUpdate | programs/stubbywm/src/main.c:468-478 | new contents of the client's window are recorded |
| Pictures.ClientShows | programs/stubbywm/src/main.c:163-197 | after an update the point dx right and dy down in the first window with the id shows number dy * width + dx of the buffer, where nothing is in front |
| Compositor.Wm.HandleNewWindow | programs/stubbywm/src/main.c:529-574 | a new window goes on top and is recorded |
| Pictures.NewShows | programs/stubbywm/src/main.c:529-574 | a new window shows its buffer from the upper left corner of the screen on, in front of all windows |
| Compositor.Wm.HandleBatch | programs/stubbywm/src/main.c:500-521 | a batch of events leads to the scene that the events define, and all that changes on screen is recorded |
| Compositor.Wm.EventLoop | programs/stubbywm/src/main.c:480-523 | for all batches of events, any contents: each point whose frontmost layer was opaque in every frame shows the scene that the events lead to, as a repaint of everything would, which is that layer; in an opaque scene that is every point |
| RingBuffers.QueuedPut | libraries/c4rt/src/ringbuffer.c:40-48 | storing a byte and advancing the write index appends it |
| RingBuffers.QueuedGet | libraries/c4rt/src/ringbuffer.c:50-58 | advancing the read index takes the first byte off |
| RingBuffers.QueuedLength | libraries/c4rt/src/ringbuffer.c:24-30 | full and empty by the indices mean size - 1 and 0 bytes |
| RingBuffers.AvailableExactly | libraries/c4rt/src/ringbuffer.c:60-62 | the used part implied is the true one, or, once the write index has wrapped, that plus 2^32 mod size, modulo size |
| RingBuffers.AvailableRight | libraries/c4rt/src/ringbuffer.c:60-62 | it is right if and only if the write index has not wrapped or the size divides 2^32 |
| RingBuffers.AvailableInPage | libraries/c4rt/src/ringbuffer.c:60-62 | in a ring of one page it is off by 108 |
| RingBuffers.RingBuffer.Full | libraries/c4rt/src/ringbuffer.c:24-26 | if and only if size - 1 bytes are in it |
| RingBuffers.RingBuffer.Empty | libraries/c4rt/src/ringbuffer.c:28-30 | if and only if no byte is in it |
| RingBuffers.RingBuffer.CanWrite | libraries/c4rt/src/ringbuffer.c:32-34 | right whenever the write index has not wrapped or the size divides 2^32 |
| RingBuffers.RingBuffer.CanRead | libraries/c4rt/src/ringbuffer.c:36-38 | the same for reading |
| RingBuffers.RingBuffer.PutByte | libraries/c4rt/src/ringbuffer.c:40-48 | appends if and only if there is room, otherwise nothing changes |
| RingBuffers.RingBuffer.GetByte | libraries/c4rt/src/ringbuffer.c:50-58 | takes the first byte if and only if there is one |
| RingBuffers.RingBuffer.Write | libraries/c4rt/src/ringbuffer.c:64-76 | appends exactly as many bytes as there are or as fit |
| RingBuffers.RingBuffer.Read | libraries/c4rt/src/ringbuffer.c:78-90 | moves exactly the first bytes, as many as asked for or there are, into place |
| RingSteps.StoreSpares | libraries/c4rt/src/ringbuffer.c:40-48 | storing a byte overwrites no slot that is still to be read |
| RingSteps.StepKeeps | libraries/c4rt/src/ringbuffer.c:40-58 | every load and store of either side keeps the queue invariant and both sides' checks |
| RingSteps.Safe | libraries/c4rt/src/ringbuffer.c:24-58 | in every interleaving the bytes consumed are a prefix of the bytes produced, with at most size - 1 in between |
| FileStream.Connection.HandleSetNode | programs/ext2fs/src/server.c:176-197 | the server's position is the start of the file |
| FileStream.Connection.HandleReadBlock | programs/ext2fs/src/server.c:363-406 | what is sent continues what the ring holds, and the position stays a block multiple or the end unless the indices have wrapped on a size that does not divide 2^32; on an empty ring the next block or the rest is sent if it fits, QUEUE_FULL if not; 0 at the end, BAD_REQUEST without a node |
| FileStream.Connection.ReadBlock | libraries/c4rt/include/c4rt/interface/filesystem.h:240-262 | the next bytes of the file, in place, none lost or repeated; nothing if and only if nothing was asked for, the file is at its end or its blocks do not fit |
| FileStream.File.Fread | libraries/c4rt/libc/stdio.c:174-188 | exactly min(size * members, rest) bytes of the file, in place, with the extra request at length 0, the product taken in 32 bits; 0 bytes if and only if the blocks do not fit the ring or nothing is left or asked for |
| FileStream.File.FreadRun | libraries/c4rt/libc/stdio.c:174-188 | for any sequence of freads the results together are the first min(total, size) bytes |
| FileStream.File.Fgetc | libraries/c4rt/libc/stdio.c:234-249 | the next byte as a signed char, the number from -0x80 to 0x7f that is the byte modulo 0x100; EOF and the status at the end, -EBADF after it |
| FileStream.File.Fgets | libraries/c4rt/libc/stdio.c:217-232 | the line with its newline if it fits with the final 0, and the stream right after it; a line that does not fit is cut and the byte after the cut is read and lost; nothing after the end; on a closed stream a buffer full of 0xff |
| GaloisLfsr.Invertible | libraries/c4rt/src/galois_lfsr.c:16-26 | the step is a bijection on 64-bit states |
| GaloisLfsr.NeverZero | libraries/c4rt/src/galois_lfsr.c:16-26 | after any number of steps the state is zero if and only if the seed was |
| GaloisLfsr.AfterLinear | libraries/c4rt/src/galois_lfsr.c:16-26 | any number of steps is linear over exclusive or |
| GaloisLfsr.OutputsDetermine | libraries/c4rt/src/galois_lfsr.c:16-30 | 64 consecutive output bits determine the state |
| GaloisLfsr.NotFewer | libraries/c4rt/src/galois_lfsr.c:16-30 | 63 do not |
| GaloisLfsr.Recurrence | libraries/c4rt/src/galois_lfsr.c:16-30 | each output bit is the exclusive or of the bits 64, 63, 61 and 60 places before it, from every state |
| GaloisLfsr.AfterOne | libraries/c4rt/src/galois_lfsr.c:16-26 | the state 1 is followed by 0xd800000000000000 |
| GaloisLfsr.WordInjective | libraries/c4rt/src/galois_lfsr.c:66-68 | the 64-bit words from two states are equal if and only if the states are |
| GaloisLfsr.WordSplit | libraries/c4rt/src/galois_lfsr.c:58-68 | a word of m + n bits is the first m bits moved up and the n after them |
| GaloisLfsr.WordDigit | libraries/c4rt/src/galois_lfsr.c:47-68 | digit k of a word, counted from the highest, is output bit k |
| GaloisLfsr.Prng.Bool | libraries/c4rt/src/galois_lfsr.c:40-45 | one output bit, one step |
| GaloisLfsr.Prng.U8 | libraries/c4rt/src/galois_lfsr.c:47-56 | eight output bits, the first one highest |
| GaloisLfsr.Prng.U64 | libraries/c4rt/src/galois_lfsr.c:66-68 | the next 64 output bits, a number that no other state gives |
| ElfStack.ReadsString | libraries/c4rt/crt/crt0.c:23-33 | a string written with its final zero reads back |
| ElfStack.ReadsStrings | libraries/c4rt/crt/crt0.c:23-33 | pointers ended by zero to such strings read back as the list |
| ElfStack.ListFrame | libraries/c4rt/src/elf.c:75-93 | pushing more disturbs no string and no pointer array |
| ElfStack.ListIsArray | libraries/c4rt/src/elf.c:75-93 | a pushed list is a C array of pointers, 4 bytes each, to the bytes of the strings, ended by a null pointer |
| ElfStack.Stack.PushArg | libraries/c4rt/src/elf.c:42-52 | the four bytes of the word, lowest first, at the new top, all above unchanged |
| ElfStack.Stack.PushStr | libraries/c4rt/src/elf.c:54-65 | the string and its zero at the new top, all above unchanged |
| ElfStack.Stack.CopyStrlist | libraries/c4rt/src/elf.c:75-93 | a null-terminated array of pointers to the strings, valid at the new process's addresses |
| ElfStack.Stack.SetupStackParams | libraries/c4rt/src/elf.c:95-109 | for all argument and environment lists that fit: at the stack pointer + 4 the name server, + 8 the address of the null-terminated array of the arguments, + 12 that of the environment, + 16 the magic number, every pointer leading to its bytes and a zero; read as _start does, that is what was given |
| Connman.TakeSucceeds | libraries/c4rt/src/connman.c:164-183 | a notification in the server's hands has a registered client with a message queued |
| Connman.StepKeeps | libraries/c4rt/src/connman.c:17-220 | every step of every client and of the server keeps the invariant |
| Connman.RunKeeps | libraries/c4rt/src/connman.c:17-220 | so every state of every interleaving has it |
| Connman.NeverEmptyHanded | libraries/c4rt/src/connman.c:164-183 | in every interleaving the receive that does not block finds a message |
| Connman.Crosswise | libraries/c4rt/src/connman.c:126-155 | in every interleaving a connected client's endpoints are the server's, the other way round |
| Connman.RepliesInOrder | libraries/c4rt/src/connman.c:60-87 | in every interleaving the i-th reply received answers this client's i-th message |
| Connman.NextReply | libraries/c4rt/src/connman.c:60-87 | in every interleaving the next reply a client receives is the answer to the earliest of its messages that has none received yet |
| Connman.CallReply | libraries/c4rt/src/connman.c:77-87 | in every interleaving a call returns exactly one reply; it is the reply to the message of the call if and only if every earlier message had its reply received when the call was made, otherwise it is the reply to the first that had not |
| Connman.StaleReply | libraries/c4rt/src/connman.c:60-87 | a run of one client whose call with 2 returns the reply to the 1 it had sent before without receiving |
| Connman.NeverStranded | libraries/c4rt/src/connman.c:17-220 | from every reachable state with a call under way there are steps that end it with one more reply received: no interleaving strands a call |
| Connman.CallOwnReply | libraries/c4rt/src/connman.c:77-87 | so each call of a client that only calls returns the reply to its own request, whatever other clients do |
| Ext2Inodes.InodesApart | programs/ext2fs/include/ext2fs/ext2fs.h:247-269 | two inode numbers never share a byte of the disk, when the inode tables of the groups do not overlap |
| Ext2Inodes.BlockInTable | programs/ext2fs/src/main.c:218-231 | the block computed for an inode is one of the table of its own group |
| Ext2Inodes.Numbered | programs/ext2fs/src/main.c:218-231 | inode group * inodesPerGroup + i + 1 is in slot i, in disk order, of the table whose first block the word at 32 * group + 8 of the descriptor block names |
| Ext2Inodes.FirstInode | programs/ext2fs/include/ext2fs/ext2fs.h:261-269 | inode 1 is at the start of the first table |
| Ext2Inodes.NextInode | programs/ext2fs/include/ext2fs/ext2fs.h:261-269 | the next inode is in the next slot of its block, or the first of the next block, or, after the last inode of a group, the first of the table of the next group |
| Ext2Inodes.RewrittenLaid | programs/ext2fs/src/main.c:268-281 | rewriting an inode moves no inode |
| Ext2Inodes.RewrittenInodes | programs/ext2fs/src/main.c:268-281 | the inode has the new value, every other inode and every other block its old one |
| Ext2Inodes.Ext2.ReadBlock | programs/ext2fs/src/main.c:36-49 | the block is in the buffer, or the number is above the total and nothing changes |
| Ext2Inodes.Ext2.WriteBlock | programs/ext2fs/src/main.c:51-64 | the buffer is in the block, or the number is above the total and nothing changes |
| Ext2Inodes.Ext2.GetInode | programs/ext2fs/src/main.c:205-242 | a copy of the inode and its place in the buffer, although the buffer held the descriptors before; none above the total |
| Ext2Inodes.Ext2.InodeTableBlock | programs/ext2fs/src/main.c:254-262 | the block that the inode is in |
| Ext2Inodes.Ext2.InodeUpdate | programs/ext2fs/src/main.c:268-281 | the inode written is the inode read afterwards, all others unchanged; 0 and no change above the total |
| Ext2Inodes.Ext2.InodeReadBlock | programs/ext2fs/src/main.c:380-420 | the block named by the word at 40 + 4 * block of the inode, or from block 12 on by the word at 4 * (block - 12) of the block that the word at 88 names, although both come through one buffer; zeros and no result for a hole and for blocks beyond; no result for numbers above the total |
| Ext2Inodes.FileServed | programs/ext2fs/src/main.c:380-420 | a fully mapped inode is a file that the read stream can serve, block by block the mapped ones |
| Ext2Inodes.ServeBlock | programs/ext2fs/src/server.c:363-406 | what the read handler finds in the buffer after ext2_inode_read_block is that block of the file the stream serves |

## Left out

- Integer keys of the andtree: comparison is by `int` subtraction; keys are taken to differ by no more than an `int` holds.
- The key function of a tree is a parameter of the methods that use it, because a Dafny field cannot hold a function that reads the heap.
- The parent field of the shared sentinel is written by rotations; nothing reads it and no invariant mentions it. `andtree_check` and printing are not modelled.
- Freed memory: `free` is modelled as leaving the set of a structure's nodes; `calloc` never fails.
- Page regions that a request for 0 pages or a second free of one block has left unsound are not followed any further.
- Alloc.Heap.Alloc: requires that size + 20 does not wrap 32 bits; for the sizes that wrap, `Alloc.BucketIndex` gives the bucket, whose blocks are too small. The pager always grants pages and the heap does not reach the end of the address space.
- Alloc.Heap.Release: requires the address of a present block's payload; what the header of a block that was merged into another holds depends on what callers wrote there.
- Alloc.Heap.Grow: the loop over chunks, which runs once, is written as one chunk.
- The order in which equal blocks are reused is the order of the lists in memory; the partition theorems hold for every order.
- Compositor: coordinates and sizes are unbounded integers; window contents change only when the client sends its update event, and a new window is inserted atomically between two events. Message plumbing, the keyboard forwarding, window creation replies, image parsing and the count in the window list are not modelled. Screen buffers are two-dimensional arrays.
- Compositor.Wm.EventLoop: where a frontmost content is transparent, says nothing of points that several regions cover in one frame; the source blends there more than once, see BUGS.md:11-14.
- Compositor.Wm.HandleNewWindow: the insertion is one step; the thread that creates windows and its handshake with the main loop are left out.
- RingBuffers.RingBuffer.constructor: only for regions that `c4_ringbuf_init` accepts; it refuses smaller ones.
- FileStream.Connection.HandleReadBlock: requires a position at a block boundary or the end; a request on a wrapped, partly filled ring, which the client never makes, could leave it inside a block, from where the source would read past the block.
- FileStream: blocks are fully mapped and at most a page; each request gets the reply to itself, which `Connman` proves. `FreadNew` and `FreadRun` are client programs. `fwrite`, directory listing, names and opening by path are left out.
- FileStream.File.Fgets: requires a size of at least 1; with size 0 the source's bound wraps.
- GaloisLfsr: the calls in one expression are taken to be evaluated from left to right.
- ElfStack.Stack.SetupStackParams: requires that everything fits below offset 0xfe0; the source writes past the page otherwise. ELF segments and capabilities are not modelled.
- Connman: the kernel is assumed to deliver: a sync send meets its receiver, async endpoints are queues in order, grants arrive in order. Client ids are taken to be distinct, and the server program answers each message once. The error exits of the handshake cannot be reached by clients that follow it.
- Ext2Inodes.Ext2.InodeReadBlock: a single indirect pointer above the last block ends the read; the source would go on with a null pointer.
- Ext2Inodes.Ext2.GetInode: requires a number above 0, as does the update; for 0 the source's subtraction wraps.
- Ext2Inodes: one block holds all descriptors, and the inode tables of the groups overlap neither each other nor that block; the block device makes no errors; sectors are not modelled below blocks. Allocation of blocks and inodes is left out: the source indexes its bitmaps by bit number.
- The remaining programs, system call wrappers, drivers, fonts, the Forth interpreter and the name server table would add only easy members.
