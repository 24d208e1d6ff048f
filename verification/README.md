# Verified models of the BDD engine, the allocator, the spooler and the chat server

Four programs of this repository have state that is easy to corrupt. This
project models each of them in Dafny and proves what their headers promise.

**Images as decision diagrams (`hw1`).** An image is a node of a table of 256 leaves, one per
pixel value, and inner nodes with two children at lower levels. `bdd_lookup` keeps the table
reduced and free of duplicates behind an open-addressed hash map. `BddTable` gives a node at
index `i`, read at level `l`, its meaning as a function of row and column: even levels halve the
rows, odd levels the columns, and a level above the node's own reads the same node in both
halves. The central result is canonicity: two indices with the same meaning are the same index.
It turns facts about pixels into facts about nodes, such as that four rotations return the very
node one started from. `BddStore` is the table in place; `BddRaster`, `BddMap`, `BddRotate`,
`BddZoom`, `BddCode` and `BddSerial` are the operations; `Birp` is the image transformation
around them.

**The allocator (`hw3`).** The heap is an array of eight-byte rows. A ghost map gives the blocks,
by the row of their header, and ghost sequences the contents of the eight free lists.
`HeapTiles`, `HeapLists` and `HeapInv` define the invariant between the rows, the blocks and the
lists; `HeapSteps`, `HeapCoalesce` and `HeapSplit` are lemmas about single writes and about one
coalescing or split; `Heap`, `HeapAlloc`, `HeapGrow`, `Malloc` and `Realloc` are the routines
themselves, writing rows in place. `HeapFit` gives the place of an allocation as a function of
the heap before it: first fit, and otherwise the block at the end after as few pages as it takes.
A call's contract ends in what its caller sees: an aligned payload, disjoint from all others, that
no other call changes, or a refusal exactly when no free block and no number of further pages
would do. `HeapFacts` reads the invariant out, and `HeapExamples` has call sequences after which the
code does what its comments do not say.

**The print spooler (`hw4`).** `Spool` defines the state of printers, jobs, slot bitmap and
counters, and its atomic steps: user commands, child-status reports, one job start and the timed
deletion. `Spooler` has the routines in place, each proved to be such steps, and the scan that
starts jobs. `SlotBits` has the 64-bit and 32-bit sets.

**The chat server (`hw5`).** `Mailbox` and `Registry` have, first, the data structure in place
and, second, a state machine of the threads using it: each section under the mutex is one
step and each semaphore operation outside one is a step of its own. `Protocol` is the packet
framing over reads and writes that stop short.

## Where the code and its comments differ

The models follow the code.

- `bdd_min_level` adds the exponents of width and height; `hw1/include/bdd.h:71-79` promises the
  least level that encloses both. `BddRaster.MinLevelAsDocumented` says exactly when they agree.
- Zooming out keeps a grey block that is constant (`hw1/src/bdd.c:274-275`), where
  `hw1/include/bdd.h:205-209` promises white. `BddZoom.GreyBlocksStayGrey` says exactly when the
  documented rule holds.
- The last opcode builds a node of level 32, not 31 as `hw1/include/bdd.h:119-121` says: see
  `BddCode.LastOpcode`.
- `bdd_from_raster` tests the width twice and the height never (`hw1/src/bdd.c:78`), so a height
  below one gives an all-zero image: `BddRaster.NoRows`, and `BddRaster.NoHeightNoWidth` at an input.
- Free list 7 takes every block over 2048 bytes (`hw3/src/custom_functions.c:82-87`), where
  `hw3/include/sfmm.h:146-150` reserves it for the wilderness. `HeapFacts.LastList` says exactly
  what it holds; `HeapExamples.ListedAsLast` reaches such a heap.
- `sf_check_pointer` rejects a live block exactly if its last payload row equals its header
  (`hw3/src/custom_functions.c:135`): see `Malloc.CheckPointer` and `HeapExamples.LiveRejected`.
  `sf_free` then aborts. `sf_realloc` may do so after it has allocated and copied, because the
  new block may set a flag in the old header: `Realloc.Outcome` decides from the heap before the
  call which of its outcomes occurs, `Realloc.SfRealloc` says from the rows and the place of the new
  block when it aborts, and `HeapExamples.ReallocAborts` is such a call.
- Cancelling a job that has finished but is not deleted yet makes it aborted and restarts its
  ten seconds (`hw4/src/cli.c:206-212`). `Spool.SlotKept` says that nothing else does, and
  `Spool.FinishedThenAborted` is an example.
- After -1, `proto_recv_packet` may have overwritten the header's length field, which
  `hw5/include/protocol.h:132-133` says it leaves alone. The contract of
  `Protocol.Connection.RecvPacket` says exactly when the field survives;
  `Protocol.Connection.LengthLost` is a stream for which it does not.
- `creg_shutdown_all` returns on a count of zero although a client's thread may still owe its
  post (`hw5/src/client_registry.c:77-78, 116`), to a semaphore that is destroyed next
  (`hw5/src/main.c:134-137`). `Registry.OwedPostOfCall` says, from the state in which the call is
  made, exactly when that can happen if nobody registers any more; `Registry.OwedPost` says it for
  a call under way, `Registry.OwedPostWithJoins` that it can always happen while clients still
  register, and `Registry.ReturnBeforePost` is such a run.
- The discard hook is never called for a message a mailbox sent to itself
  (`hw5/src/mailbox.c:120-122`); `hw5/include/mailbox.h:94-101` announces such calls with a null
  sender. `Mailbox.BouncedOnce` counts the calls, and `Mailbox.OwnMessage` is such a message.
- A packet of a type the server does not handle leaves its payload pointer in place
  (`hw5/src/server.c:88-205`), so an empty packet after it appears to have that payload.
  `Protocol.SeenAsSent` says exactly when what the server sees is what was sent, and
  `Protocol.StalePayload` has two packets for which it is not.

## Model

| member | source | states |
|---|---|---|
| BddTable.Canonicity | hw1/src/bdd.c:37-74 | in a table built by lookups, two indices with the same image at a common level are the same index |
| BddTable.ConstantIffLeaf | hw1/src/bdd.c:47-48 | an image is constant if and only if its node is a leaf |
| BddTable.SkippedLevels | hw1/src/bdd.c:17-18 | reading a node at a higher level repeats the image it has at its own level |
| BddTable.PixIsByBits | hw1/src/bdd.c:166-197 | halving the ranges gives the same pixel as reading row and column bits from the top |
| BddTable.PixExtends | hw1/src/bdd.c:55-63 | adding nodes never changes the image of an older index |
| BddStore.Pigeonhole | hw1/src/bdd.c:53-72 | a sequence of distinct values in a range is no longer than the range, so the probed map has a gap |
| BddStore.GapOnPath | hw1/src/bdd.c:53-72 | every probe path of a map holding all nodes of a table meets an empty slot |
| BddStore.AbsentAtGap | hw1/src/bdd.c:53-72 | a node not met before the first empty slot of its probe path is nowhere in the table |
| BddStore.InsertSlot | hw1/src/bdd.c:62 | storing a new node at the first gap of its path keeps every node reachable on its own path |
| BddStore.Store.constructor | hw1/src/bdd.c:37-40 | the initial table has the 256 leaves and no other node |
| BddStore.Store.Lookup | hw1/src/bdd.c:37-74 | -1 out of bounds; equal children give the child; otherwise the one index of that node, old if there is one and else the next free one; older nodes stay |
| BddStore.Store.Probe | hw1/src/bdd.c:51-72 | the probe stops at an equal node, or at a gap and then the table has no such node |
| BddMap.Map | hw1/src/bdd.c:202-213 | the result's image is the function applied to every pixel, at every level |
| BddMap.ComplementTwice | hw1/src/birp.c:57 | complementing twice gives the same node |
| Birp.ComplementRaster | hw1/src/custom_functions.c:158-160 | of the raster written after complementing, every byte and the data's byte in its place add up to 255 |
| Birp.CapRaster | hw1/src/custom_functions.c:162-165 | of the raster written after the threshold filter, a byte is 255 where the data's is at least the threshold and 0 where it is below |
| BddMap.CapTwice | hw1/src/birp.c:60 | capping at a threshold twice gives the same node as once |
| BddRotate.Rotate | hw1/src/bdd.c:215-268 | at even level 2d the result's pixel (r, c) is the original's (c, 2^d-1-r), whatever levels were skipped |
| BddRotate.RotateFull | hw1/src/bdd.c:221-260 | the same for a node at the level itself, whose halves may skip a level |
| BddRotate.RotateSides | hw1/src/bdd.c:261-264 | the same for a node one level below |
| BddRotate.FourRotations | hw1/src/bdd.c:215-268 | four rotations at one level return the identical node |
| BddRotate.RotateFourTimes | hw1/src/bdd.c:215-268 | four calls of the rotation, each in the table the one before left, return the identical index |
| BddRotate.RotationCommutesWithMap | hw1/src/bdd.c:202-268 | rotating then mapping gives the same node as mapping then rotating |
| BddZoom.Zoom | hw1/src/bdd.c:270-285 | zooming in repeats each pixel; zooming out shrinks each block to its value if constant and to 255 otherwise |
| BddZoom.ZoomByZero | hw1/include/bdd.h:209-210 | factor 0 returns the same node |
| BddZoom.ZoomInThenOut | hw1/src/bdd.c:270-285 | zooming in and back out by the same factor returns the identical node |
| BddZoom.ZoomInAndOut | hw1/src/bdd.c:270-285 | the two calls, each in the table the one before left, return the identical index |
| BddZoom.ConstantBlocks | hw1/src/bdd.c:280-284 | a block is constant exactly if the smaller blocks in it are, with one value |
| BddZoom.ZoomOutTwice | hw1/src/bdd.c:270-285 | zooming out by two factors in turn gives the same index as zooming out by their sum, although mixed blocks have turned white in between |
| BddZoom.BlackBlocks | hw1/include/bdd.h:205-209 | a pixel of the zoomed-out image is black if and only if its block is entirely black |
| BddZoom.GreyBlocksStayGrey | hw1/src/bdd.c:274-281 | the documented black-or-white rule holds for a block if and only if the block is not a constant grey |
| BddZoom.GreyLeafExample | hw1/src/bdd.c:274-275 | a concrete leaf for which the documented rule fails |
| BddZoom.ZoomedOutBase | hw1/src/bdd.c:280-281 | a node at the block level shrinks to itself if a leaf and else to white, because inner nodes are not constant |
| BddRaster.MinLevel | hw1/src/bdd.c:20-28 | the sum of the two least exponents whose powers reach width and height |
| BddRaster.MinLevelAsDocumented | hw1/include/bdd.h:71-79 | that sum is the documented least level if and only if the two exponents are equal |
| BddRaster.MinLevelDiffers | hw1/src/bdd.c:20-28 | 4 by 1 gives level 2, which does not enclose it |
| BddRaster.LevelOfSides | hw1/src/custom_functions.c:78-80 | the level computed from the sides of a region is the one it was cut at |
| BddRaster.Split | hw1/src/custom_functions.c:77-96 | the node for a region shows the raster inside the image and zero outside |
| BddRaster.FromRaster | hw1/src/bdd.c:76-89 | the node shows the raster in the least enclosing square and zero outside the raster; null for no width or too many levels |
| BddRaster.NoRows | hw1/src/bdd.c:78 | without a height the result is the black leaf, whatever the width |
| BddRaster.NoHeightNoWidth | hw1/src/bdd.c:76-89 | width 1 and height 0 give the black leaf, width 0 and height 1 null |
| BddRaster.Apply | hw1/src/bdd.c:151-200 | the bisection returns the node's pixel |
| BddRaster.ToRaster | hw1/src/bdd.c:91-102 | every written byte is the node's pixel, coordinates taken modulo the node's own sides; nothing past w*h is written |
| BddRaster.RasterRoundTrip | hw1/include/bdd.h:81-111 | writing out a node that shows a raster gives the raster back, even if the root skipped levels |
| BddRaster.RoundTrip | hw1/src/bdd.c:76-102 | from_raster then to_raster returns the data, for all sizes within the level bound |
| BddCode.DescribedIsBuilt | hw1/include/bdd.h:114-141 | an instruction list describing nodes of a table stands for the images of those nodes |
| BddCode.SameCodeSameImage | hw1/include/bdd.h:114-141 | nodes built by one instruction in two tables have the same image |
| BddCode.ParseEncoded | hw1/src/bdd.c:121-147 | parsing the bytes of an instruction list returns the list |
| BddCode.LastOpcode | hw1/src/bdd.c:127-143 | the bytes of a level-32 node start with the last opcode and parse back to it |
| BddCode.WordRoundTrip | hw1/src/bdd.c:131-140 | four bytes, least significant first, read back as the number written |
| BddSerial.SerializeHelper | hw1/src/custom_functions.c:98-131 | the bytes are the instructions of the post-order listing, each node once, serials dense |
| BddSerial.Serialize | hw1/src/bdd.c:104-115 | the stream is the encoding of the listing of the root; -1 and nothing for null |
| BddSerial.PostOrderListsReach | hw1/src/custom_functions.c:111-115 | the listing holds exactly the reachable nodes and ends with the root |
| BddSerial.PostOrderDistinct | hw1/src/custom_functions.c:101-115 | no node is listed twice |
| BddSerial.SerialListing | hw1/src/bdd.c:104-115 | a serialization emits each reachable node once, children first, root last |
| BddSerial.LeftFirst | hw1/src/custom_functions.c:111-115 | the bytes of a node start with the bytes of its left child alone |
| BddSerial.TwoPixels | hw1/src/custom_functions.c:98-131 | the exact bytes of any node of level 1 |
| BddSerial.SerialParses | hw1/src/bdd.c:117-149 | the bytes of a serialization parse back to its instructions, which are well formed |
| BddSerial.SerialMeaning | hw1/src/bdd.c:117-149 | a node built from a serialization in any table has the root's image |
| BddSerial.Deserialize | hw1/src/bdd.c:117-149 | a well-formed stream builds what it stands for; in a table that has the nodes it adds none and returns the listed index; a cut stream gives null |
| BddSerial.SerializeThenDeserialize | hw1/src/bdd.c:104-149 | in one table the round trip returns the same index and adds no node |
| BddSerial.DeserializeElsewhere | hw1/src/bdd.c:117-149 | in any other table it returns a node with the same image at every level |
| Birp.ZoomedLevel | hw1/src/birp.c:63-73 | the new width and height have exactly the new level as their enclosing level |
| Birp.ZoomedSideCovers | hw1/src/birp.c:66-72 | a shifted side, rounded up, fits the shifted power and no smaller one |
| Birp.ZoomedSideScales | hw1/src/birp.c:66-72 | a side is multiplied exactly, or becomes the least whose multiple covers the old one |
| Birp.Transform | hw1/src/birp.c:46-78 | each transformation's node and sizes; a zoom out of level bounds gives null |
| Birp.ZoomInRaster | hw1/src/birp.c:62-73 | the written zoomed-in image repeats the data's pixels in blocks |
| Birp.ZoomOutRaster | hw1/src/birp.c:62-73 | each byte of the written zoomed-out image is the value of its block of data if that is constant and white otherwise, so black exactly where the block is |
| Birp.RotateRaster | hw1/src/birp.c:74-78 | byte (r, c) of the written rotated image is byte (c, side-1-r) of the data, and zero where that is outside |
| HeapTiles.TilesCover | hw3/src/custom_functions.c:15-23 | every row between prologue and epilogue belongs to exactly one block |
| HeapTiles.Predecessor | hw3/src/custom_functions.c:70-72 | every block but the first follows another without gap |
| HeapTiles.MergedTiles | hw3/src/custom_functions.c:64-76 | joining two neighbours keeps the tiling |
| HeapTiles.DividedTiles | hw3/src/custom_functions.c:154-159 | cutting a block in two keeps the tiling |
| HeapTiles.PagedTiles | hw3/src/custom_functions.c:94-113 | adding a page where the epilogue was keeps the tiling |
| HeapLists.UnlinkedList | hw3/src/custom_functions.c:65-66 | unlinking a member leaves a proper circular list without it |
| HeapLists.PushedList | hw3/src/custom_functions.c:88-91 | the push makes a proper circular list with the block in front |
| HeapCoalesce.ClearNext | hw3/src/custom_functions.c:68-69 | clearing the successor's flag fits a block that is becoming free |
| HeapCoalesce.AbsorbNext | hw3/src/custom_functions.c:64-67 | a free successor is unlinked and taken into the open block |
| HeapCoalesce.FlagOfPredecessor | hw3/src/custom_functions.c:70-72 | the flag bit tells whether the block before is free, and then its footer gives its start |
| HeapCoalesce.AbsorbIntoPrev | hw3/src/custom_functions.c:70-75 | a free predecessor takes the open block in |
| HeapCoalesce.CloseBlock | hw3/src/custom_functions.c:78 | the footer completes a block whose neighbours are allocated |
| HeapCoalesce.ListBlock | hw3/src/custom_functions.c:80-91 | a closed free block put in its list restores the whole invariant |
| Heap.Memory.Unlink | hw3/src/custom_functions.c:65-66 | memory with the block out of its list |
| Heap.Memory.Push | hw3/src/custom_functions.c:88-91 | memory with the block in front of a list |
| Heap.Memory.ClassFor | hw3/src/custom_functions.c:82-87 | the last list for the end block, otherwise the first whose bound holds the size |
| Heap.Memory.AddToFreeList | hw3/src/custom_functions.c:60-92 | the block, coalesced on both sides, is listed and the invariant holds; live payloads are untouched |
| HeapSplit.MarkTaken | hw3/src/custom_functions.c:151-153 | allocating a whole block sets its bit and its successor's flag |
| HeapSplit.SplitTaken | hw3/src/custom_functions.c:154-159 | the split writes an allocated front and a free rest |
| HeapSplit.PadTaken | hw3/src/custom_functions.c:40-46 | the pad split writes a free front and an open rest |
| HeapAlloc.PaddingAligns | hw3/src/custom_functions.c:34-36 | the padding aligns the payload, is a multiple of 16, and is zero or at least 32 |
| HeapAlloc.PaddingLeast | hw3/src/custom_functions.c:34-36 | no shorter padding would align the payload and leave room for a block in front |
| HeapAlloc.AllocateBlock | hw3/src/custom_functions.c:147-163 | the block is allocated with the size, or whole if less than 32 bytes would be left; the rest is listed, payloads are kept and nothing else is taken |
| HeapAlloc.TakeListed | hw3/src/custom_functions.c:37-52 | a listed block with room is unlinked and its aligned part allocated, with no rest of 32 bytes or more; pad and rest are free again |
| HeapGrow.FindFit | hw3/src/custom_functions.c:28-57 | the first block of the list with room for size and padding, or none if no block has |
| HeapGrow.CheckFreeList | hw3/src/custom_functions.c:26-58 | null exactly when no listed block has room, and then nothing changed; otherwise the first block with room is handed out, behind the pad it needs |
| HeapGrow.ExtendLast | hw3/src/custom_functions.c:103-108 | a free last block grows by the page |
| HeapGrow.FreshPage | hw3/src/custom_functions.c:109-113 | otherwise the page becomes a free block in place of the epilogue |
| HeapGrow.IncreaseWilderness | hw3/src/custom_functions.c:94-115 | one page more, and the blocks are those before with the last one grown; or no memory and nothing changed |
| HeapFit.FirstInAt | hw3/src/custom_functions.c:33-55 | the walk that stops at the first member with room has found the first fit of the list |
| HeapFit.FirstFitAt | hw3/src/custom_functions.c:185-189 | if over all lists in order member k of list c is the first with room, the search finds that member, whatever list up to c it starts at |
| HeapFit.LastStartIs | hw3/src/custom_functions.c:103-113 | at most one free block touches the epilogue: the one a page extends |
| HeapFit.GrownEnd | hw3/src/custom_functions.c:94-115 | after a page the block at the end starts where it did, and no other free block is new or changed |
| HeapFacts.ListedOnce | hw3/src/custom_functions.c:36-39 | the lists hold exactly the free blocks, each once, in the list of its size and place |
| HeapFacts.LinksAreInverse | hw3/src/custom_functions.c:88-91 | next and prev of a free block are inverse and lead around its list |
| HeapFacts.ClassIsExact | hw3/src/custom_functions.c:83-87 | list i below the last holds sizes over 32*2^(i-1), up to 32*2^i |
| HeapFacts.LastList | hw3/src/custom_functions.c:82-87 | list 7 holds a free block if and only if it touches the epilogue or exceeds 2048 bytes |
| HeapFacts.BlocksAreSound | hw3/src/custom_functions.c:60-92 | sizes, flag bits, footers and the absence of free neighbours between operations |
| HeapFacts.PayloadsDisjoint | hw3/src/custom_functions.c:147-163 | two allocated blocks share no payload row |
| Heap.Memory.constructor | hw3/src/custom_functions.c:165-170 | memory for so many pages, and no heap in it yet |
| Malloc.NewHeap | hw3/src/custom_functions.c:165-170 | the state before the first call satisfies what every operation requires and keeps |
| Malloc.BlockSize | hw3/src/custom_functions.c:173-176 | a multiple of 16, at least 32, holding header and request, with less than 16 bytes to spare |
| Malloc.InitializeHeap | hw3/src/custom_functions.c:5-24 | a sound heap of prologue, one free block and epilogue |
| Malloc.SmallLists | hw3/src/custom_functions.c:177-189 | no block in a list below the request's class has room, so the search may start there |
| Malloc.FirstListed | hw3/src/custom_functions.c:177-189 | the search from the class of the size on finds the first member with room over all eight lists |
| Malloc.PlacedFirst | hw3/src/custom_functions.c:33-55 | then the heap does not grow, and the block is cut from that member behind the padding: exactly the size, or all that is left if less than 32 bytes would remain |
| Malloc.SearchLists | hw3/src/custom_functions.c:177-189 | the block handed out is the first member with room over all lists in order; null exactly if there is none, and then no free block anywhere has room |
| Malloc.GrowUntilRoom | hw3/src/custom_functions.c:190-195 | the loop ends with the block at the end, after as many pages as it takes and no more, or with no page left when even all of them would not do |
| Malloc.LastOrNone | hw3/src/custom_functions.c:190-194 | after a page added for want of room, searching the last list alone finds the block at the end if that is now long enough, and nothing otherwise |
| Malloc.GeneralizeAllocation | hw3/src/custom_functions.c:165-197 | null exactly for size 0 or if no free block has room and all pages left would not do; otherwise an aligned payload of the size cut from the first member with room over all lists in order, or at the end after the fewest pages; nothing else comes alive or changes |
| Malloc.SfMalloc | hw3/src/sfmm.c:13-15 | the same with alignment 16; live payloads are kept and no other block comes alive |
| Malloc.PowerOfTwoTest | hw3/src/sfmm.c:52 | align & (align-1) is zero if and only if align is a power of two |
| Malloc.SfMemalign | hw3/src/sfmm.c:50-57 | an error and no change for a bad alignment, otherwise an allocation aligned as asked, refused under the same exact condition |
| Malloc.CheckPointer | hw3/src/custom_functions.c:117-145 | rejects what lies outside; accepts a live block if and only if its last row differs from its header |
| Malloc.SfFree | hw3/src/sfmm.c:17-23 | aborts unchanged if the pointer is rejected; otherwise the block is part of a free one, all others are kept and none comes alive |
| Realloc.CopyPayload | hw3/src/sfmm.c:45 | the old payload in the new block, everything else kept |
| Realloc.FlagAfter | hw3/src/sfmm.c:42-46 | an allocation sets the flag of a kept block exactly if the new block ends where that one starts |
| Realloc.GapFilled | hw3/src/sfmm.c:42-46 | the new block ends there exactly if the first fit is the free block before it, taken whole |
| Realloc.HeaderAfter | hw3/src/sfmm.c:42-46 | so the old header after the allocation, from the heap before it |
| Realloc.SfRealloc | hw3/src/sfmm.c:25-48 | an accepted pointer is freed for size 0, cut down in place if the block is big enough, and otherwise moved or refused; the move aborts exactly if the last payload row is the header plus 2 and the new block ends where the old one starts; the payload is kept, all other blocks are kept and nothing leaks |
| HeapExamples.ReallocAborts | hw3/src/sfmm.c:42-46 | after malloc(40), malloc(24), free of the first and a store, realloc of the second to 40 aborts after it has allocated and copied |
| HeapExamples.ReallocMoves | hw3/src/sfmm.c:42-47 | after malloc(24) and a store, realloc to 100 bytes moves the block |
| HeapExamples.HigherList | hw3/src/custom_functions.c:185-189 | after malloc(120), malloc(24) and free of the first, malloc(40) takes the freed block from the list above its own, not the big one in the last list |
| HeapExamples.LiveRejected | hw3/src/custom_functions.c:135-136 | after malloc(24) and a store, a live block that sf_check_pointer rejects |
| HeapExamples.ListedAsLast | hw3/src/custom_functions.c:82-87 | after malloc(2056), malloc(24) and free of the first, a block in list 7 that does not touch the epilogue |
| SlotBits.WithBits | hw4/src/custom_functions.c:93 | setting bit i changes bit i only |
| SlotBits.FlippedBits | hw4/src/cli.c:324 | flipping bit i inverts bit i and no other |
| SlotBits.PlusHas | hw4/src/cli.c:174 | adding a printer to a set changes that printer's bit only |
| Spool.StepKeeps | hw4/src/custom_functions.c:260-353 | every command, child report, start and deletion keeps the scheduler invariant |
| Spool.EveryRunKeeps | hw4/src/custom_functions.c:260-353 | so does every run of them, in any order |
| Spool.StartKeeps | hw4/src/custom_functions.c:341-346 | a start keeps printers and jobs matched one to one |
| Spool.ExitKeeps | hw4/src/custom_functions.c:269-302 | a child's end frees its printer and its job and no other |
| Spool.StatusKeeps | hw4/src/cli.c:279-304 | enabling and disabling keep a printer's process and the meaning of its status |
| Spool.FlipsOnlyClear | hw4/src/cli.c:318-325 | every bit flipped by the deletion was 1, and exactly the due jobs' bits are |
| Spool.RunningCounts | hw4/src/custom_functions.c:260-331 | the counter is the number of running and paused jobs and of printers with a process; the wait flag is set exactly when there are some |
| Spool.OneToOne | hw4/src/custom_functions.c:333-353 | nonzero pids match printers with running or paused jobs one to one |
| Spool.SlotFreed | hw4/src/cli.c:318-325 | a slot is freed only by the deletion of a finished or aborted job at least ten seconds old |
| Spool.SlotTaken | hw4/src/custom_functions.c:80-103 | a slot is taken only for a new job, and is the lowest free one |
| Spool.SlotKept | hw4/src/custom_functions.c:286-295 | a kept slot keeps file, type and printers; no job runs twice; a finished one becomes aborted exactly when it is cancelled |
| Spool.FinishedThenAborted | hw4/src/cli.c:206-212 | a finished job that a cancel command makes aborted |
| Spooler.StartScanned | hw4/src/custom_functions.c:334-346 | a start in the scan settles its pair and undoes no settled one |
| Spooler.ScanOutcome | hw4/src/custom_functions.c:333-353 | after a scan no idle printer is left with a waiting job that may use it and can be converted, but where a fork failed; each new child serves one such pair |
| Spooler.Scheduler.FindPrinter | hw4/src/custom_functions.c:72-78 | the first printer of the name, or none has it |
| Spooler.Scheduler.DefinePrinter | hw4/src/custom_functions.c:54-70 | a new disabled printer without process, or a refusal at 32 |
| Spooler.Scheduler.CreateJob | hw4/src/custom_functions.c:80-103 | the job in the lowest free slot, or a refusal exactly when all 64 are taken |
| Spooler.Scheduler.ChoosePrinters | hw4/src/cli.c:161-175 | all printers if none is named, otherwise exactly the named ones; an unknown name is an error |
| Spooler.Scheduler.CancelJob | hw4/src/cli.c:194-224 | a job with a process is signalled, one without is aborted, an unused or bad number is an error |
| Spooler.Scheduler.EnablePrinter | hw4/src/cli.c:287-304 | busy if it has a process, else idle |
| Spooler.Scheduler.DisablePrinter | hw4/src/cli.c:271-285 | disabled, keeping its process |
| Spooler.Scheduler.FindJob | hw4/src/custom_functions.c:272-278 | the search for a living child's job always finds it |
| Spooler.ReportHandled | hw4/src/custom_functions.c:286-324 | an exit with status 0 finishes the job and any other end aborts it, with the time noted and a busy printer made idle; a stop pauses it and a continuation runs it |
| Spooler.Scheduler.HandleChild | hw4/src/custom_functions.c:260-331 | one report does exactly that to the job and the printer of the child, nothing to any other, and keeps the invariant |
| Spooler.Scheduler.StartJob | hw4/src/custom_functions.c:241-256 | a refused fork changes nothing; otherwise job and printer are marked for a fresh child |
| Spooler.Scheduler.TryStart | hw4/src/custom_functions.c:337-350 | 0 exactly when the pair is not startable, -1 when the fork failed, otherwise the start is done |
| Spooler.Scheduler.Scan | hw4/src/custom_functions.c:333-353 | a run of starts after which nothing startable is left but refused forks, and no lower-numbered job was passed over |
| Spooler.Scheduler.DeleteOldJobs | hw4/src/cli.c:318-326 | exactly the jobs that ended ten seconds ago or earlier lose their slot and file name; all else stays |
| Mailbox.StepIsSafe | hw5/src/mailbox.c:135-206 | every step keeps semaphore, passed threads and NULL answers in balance with queue and shutdowns |
| Mailbox.EveryRunIsSafe | hw5/src/mailbox.c:135-206 | over all interleavings, taken then queued entries are the added ones in order, and no take meets an empty queue |
| Mailbox.FirstInFirstOut | hw5/src/mailbox.c:147-206 | taken entries are a prefix of those added; while active the queue length is the semaphore plus the threads past it |
| Mailbox.DefunctForGood | hw5/src/mailbox.c:135-140 | after a shutdown nothing is delivered any more |
| Mailbox.StuckExactlyWhenIdle | hw5/src/mailbox.c:187-190 | a thread is stuck at the semaphore exactly when every queued entry has a thread on its way to it, or, once defunct, every answer is given or about to be |
| Mailbox.ServiceThread | hw5/include/mailbox.h:178-188 | the servicing thread gets the oldest entry, and NULL after a shutdown |
| Mailbox.DeliveredOrDiscarded | hw5/src/mailbox.c:112-129 | every added entry is either taken or left for finalization |
| Mailbox.BouncedOnce | hw5/src/mailbox.c:119-123 | the hook sees each leftover message from another mailbox once, and nothing else |
| Mailbox.OwnMessage | hw5/src/mailbox.c:120-122 | a leftover message to itself, of which the hook is not told |
| Mailbox.Queue.constructor | hw5/src/mailbox.c:65-75 | an empty ring with its sentinel |
| Mailbox.Queue.AddEntry | hw5/src/mailbox.c:147-185 | the entry at the tail, one post |
| Mailbox.Queue.ShutDown | hw5/src/mailbox.c:135-140 | defunct, one post |
| Mailbox.Queue.TakeEntry | hw5/src/mailbox.c:187-206 | the head entry while active, otherwise NULL and no change |
| Mailbox.Queue.Finalize | hw5/src/mailbox.c:112-129 | every leftover discarded once in order, the hook called for exactly the messages of other mailboxes, every cell of the ring freed once |
| Registry.SlotWritten | hw5/src/client_registry.c:54-57 | filling an empty slot raises the number of listed clients by one |
| Registry.FullMeansNoGap | hw5/src/client_registry.c:52-63 | fewer clients than slots if and only if a slot is empty |
| Registry.ListedInOrder | hw5/src/client_registry.c:94-101 | a front part of the slots has all clients if and only if the rest is empty, so the early exit is right |
| Registry.ListedAreTheClients | hw5/src/client_registry.c:94-98 | the list holds exactly the clients in the slots |
| Registry.Store.Register | hw5/src/client_registry.c:50-67 | a new client in the first empty slot, or NULL and no change at 64; the join step of the state machine |
| Registry.Store.Unregister | hw5/src/client_registry.c:69-84 | the client's slot emptied, or -1 and no change if it has none; the leave step of the state machine |
| Registry.Store.AllClients | hw5/src/client_registry.c:86-105 | exactly the registered clients in slot order, then NULL |
| Registry.Store.ShutDownSockets | hw5/src/client_registry.c:107-114 | every registered client's connection is shut down once, in slot order |
| Registry.EveryRunIsAccounted | hw5/src/client_registry.c:50-119 | over all interleavings every registration is a client, a pending post, a token or a past wake-up |
| Registry.NoLostPost | hw5/src/client_registry.c:78-118 | a blocked waiter with no client left has a token or a pending post |
| Registry.ReturnsOnZero | hw5/src/client_registry.c:115-118 | over every run the call returns as often as the waiter reads a count of zero, and never otherwise |
| Registry.OwedPostOfCall | hw5/src/client_registry.c:77-118 | without further registrations, a call made now can return while a thread still owes its post if and only if a client is registered or has left and not posted yet |
| Registry.OwedPost | hw5/src/client_registry.c:77-118 | the same for a call under way, where a blocked waiter needs one post to wake up |
| Registry.NothingOwed | hw5/src/client_registry.c:77-118 | over every run without registrations, what cannot be owed at its start is not owed at the return that ends it |
| Registry.OwedPostWithJoins | hw5/src/client_registry.c:50-118 | while clients may still register, a call under way can always return with a post owed |
| Registry.ReturnBeforePost | hw5/src/client_registry.c:77-78 | a run in which the call returns before a client's thread has posted |
| Registry.ClosingEnds | hw5/src/client_registry.c:115-118 | without registrations every run is bounded, and each wake-up lowers clients, tokens and pending posts by one |
| Registry.ShutdownReturns | hw5/include/client_registry.h:104-114 | however the threads interleave, when none can move the call has returned and no client is left |
| Protocol.FirstOfWire | hw5/src/protocol.c:52-86 | a stream starts with a packet if and only if all its bytes are there |
| Protocol.FirstAnnounced | hw5/src/protocol.c:64-86 | if bytes 4 to 7 hold n, most significant byte first, the packet is the first 20 bytes with the n bytes behind them, once these are there |
| Protocol.ReceivedAsSent | hw5/src/protocol.c:14-89 | a stream cut anywhere yields, in order, exactly the packets that are whole in it |
| Protocol.AllReceived | hw5/src/protocol.c:14-89 | receiving from the wire form of any packets returns those packets |
| Protocol.WireIsInjective | hw5/include/protocol.h:56-69 | different packet sequences differ on the wire |
| Protocol.Connection.WriteAll | hw5/src/protocol.c:25-32 | all bytes written, or a failure after a proper front part |
| Protocol.Connection.ReadAll | hw5/src/protocol.c:54-61 | the buffer filled from the stream, or after a failure or at its end as far as it was read |
| Protocol.Connection.SendPacket | hw5/src/protocol.c:14-44 | 0 exactly when no call failed, and then header and as many payload bytes as bytes 4 to 7 say, most significant first, are on the wire |
| Protocol.SeenAsSent | hw5/src/server.c:87-206 | the service loop sees the packets that were sent if and only if no unhandled packet with a payload comes directly before an empty one |
| Protocol.Connection.ServiceLoop | hw5/src/server.c:87-206 | however reads are cut, the loop sees the packets of the stream in order, each with its own payload or the one left in the pointer, and all of them if no call failed |
| Protocol.Connection.RecvPacket | hw5/src/protocol.c:46-89 | 0 exactly when no call failed and a whole packet was there; -1 leaves the payload pointer, and the length field exactly if the bytes read over it were the same |
| Protocol.Connection.LengthLost | hw5/src/protocol.c:52-61 | a stream that ends inside the header and leaves another length there |
| Protocol.StalePayload | hw5/src/server.c:87-206 | two packets of which the second is seen with the first one's payload |

## Left out

- BddStore.Store.Lookup: the children must be proper nodes of lower levels and the level at least 1; the C code checks only index bounds.
- BddRaster.FromRaster: squares of 2^16 and more, where the C code's `width * height` and shifts overflow `int`, are treated as if integers had no width.
- BddSerial.Deserialize: streams whose instructions refer to later, missing or higher-level nodes are excluded; the C code does not validate them, although its header says it should. Serial numbers stay below the size of the index map.
- Birp.Transform: a file whose node has a higher level than the square its header encloses is excluded; the reader (`hw1/src/image.c:114-131`) accepts it, and rotation then recurses without end.
- Running out of nodes ends the C program; here it is the outcome `Exit` of every operation that may add nodes.
- Malloc.SfMalloc: sizes near 2^64, where `8 + size` wraps, are excluded by a bound on the request.
- Malloc.SfMemalign: the same bound.
- Realloc.SfRealloc: the same bound; a pointer as for `Malloc.SfFree`.
- Malloc.CheckPointer: the pointer as for `Malloc.SfFree`.
- Malloc.SfFree: a pointer is either the payload of a live block or rejected by the address tests; other addresses inside the heap are not considered.
- Realloc.CopyPayload: `memcpy` copies rows of eight bytes in order.
- HeapGrow.Grow: `sf_mem_grow` hands out pages of one preallocated array of rows and fails when it is used up; the first page is assumed to be available.
- Printing, PGM and birp file headers, ASCII output, option parsing and the `main` functions.
- `hw2` and `hw0`: a generated scanner, formatting and case-by-case board moves.
- Spooler.Scheduler.StartJob: the child's side, with its pipeline of conversions, and a failing `calloc` after the fork. Whether a conversion path exists is a set of type pairs that any command may replace.
- Spooler.Scheduler.HandleChild: the loop over `waitpid` repeats it once a report; reports are about living children. The clock is never at time 0.
- Spooler.Scheduler.CancelJob: sending the signals, here and in the pause and resume commands; the child's report is what changes the state.
- Steps of the spooler are atomic because signals are masked around them; that `sf_readline` masks them around the scan is taken from `hw4/include/sf_readline.h`.
- Mailbox reference counts, the release of senders' mailboxes and deadlock between two mailboxes locked in opposite orders. Message bodies are C strings, copied up to their end; `malloc` succeeds.
- Registry reference counts, and the shutdown call made by two threads at once, which its header forbids.
- Protocol.Connection.RecvPacket: trace output, which indexes the packet names by an unchecked type byte.
- Protocol.Connection.ServiceLoop: what the branches for the packet types do, beyond giving back the payload.
- The rest of the chat server: sessions and users.
