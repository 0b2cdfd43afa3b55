# CS:APP labs in Dafny: segregated-fit allocator, LRU cache simulator, matrix transpose

This project models three programs from a CS:APP lab repository. It states
what each one computes and proves it.

- **The allocator, `malloclab-handout/mm.c`** (modules `MmLayout`, `MmLists`,
  `MmHeap`, `MmRealloc`, `MmAlloc`, `MmFindings`).
  - A segregated-fit `malloc`/`free`/`realloc` over a 20 MiB heap.
  - Each block is laid out as a link word, a header holding its size, the
    payload, and a footer.
  - The footer holds the size while the block is free, and has its low bit set
    while it is allocated.
  - Free blocks sit on one of `LIST_SIZE` singly linked buckets rooted in
    `m_root`:
    - sizes below 1024 words get one bucket each;
    - larger sizes share a bucket per band of 16384 words.
  - `mm_malloc` takes the first block of at least `ALIGN(size + 24)` bytes,
    scanning from the request's own bucket upwards. It splits off the rest when
    32 bytes or more remain, and otherwise grows the heap with `mem_sbrk`.
  - `mm_free` merges the freed block with a free predecessor and a free
    successor, then pushes the result on its bucket.
  - `MmAlloc.Allocator` is a class over the heap words (`mem`), the bucket
    table (`roots`) and the break (`brk`). Two ghost fields give the meaning:
    - `blocks`, the tiling of `[0, brk)` into blocks;
    - `lists`, the contents of every bucket.
  - `Valid()` ties the words to that meaning:
    - the blocks tile the heap;
    - every block's tags are right;
    - every bucket is a well-linked, duplicate-free chain of blocks of its
      size class;
    - the listed blocks are exactly the free ones.
  - Every operation keeps `Valid()` and states its effect on the blocks. In
    particular, every allocated block other than the one operated on keeps its
    place and its payload words.
- **The cache simulator, `cachelab-handout/csim.c`** (module `CacheSim`).
  - An address splits into tag, set index (`s` bits) and block offset (`b`
    bits).
  - Each set is a list of at most `E` tags, least recently used first.
  - `data_access` counts hits, misses and evictions.
  - The reference meaning is `Lru(history, E)`: the `E` most recently used
    distinct tags of a set's access history. Every access keeps each set equal
    to the `Lru` of its history.
  - The three counters equal `HitsOf`, `MissesOf` and `EvictionsOf` of the
    histories: each access is classified against the `Lru` contents of the
    accesses before it.
- **The transposes, `cachelab-handout/trans.c`** (module `Transpose`).
  - `trans` is a row-by-row transpose.
  - `transpose_submit` works in 8×8 tiles when both dimensions are multiples
    of 8, and does nothing otherwise.
  - `is_transpose` is the checker.
  - All three are proved against `Transposed(A, B)`. The tiled version is also
    proved to write every cell of `B` exactly once.

The smallest block is 24 bytes (`mm_malloc(0)` asks for `ALIGN(24)`); only a
split needs a remainder of 32 bytes or more.

## Model

| member | source | states |
|---|---|---|
| MmLayout.Align | malloclab-handout/mm.c:41 | ALIGN(n) is a multiple of 8, at least n and less than n + 8 |
| MmLayout.SetLowBit | malloclab-handout/mm.c:169 | `*p \| 1` is odd, and leaves an odd word as it is |
| MmLayout.RootIndexMonotone | malloclab-handout/mm.c:52-58 | a larger size never gets a lower bucket, which is why searching upwards from get_root_ind(newsize) misses no fit |
| MmLayout.RootIndexExact | malloclab-handout/mm.c:53-54 | each size below THRESHOLD words is alone in its bucket |
| MmLayout.RootIndexBand | malloclab-handout/mm.c:55-56 | above THRESHOLD, two sizes share a bucket exactly when they lie in the same band of SEPARATE_GAP words (both directions) |
| MmLayout.RootIndexInRange | malloclab-handout/mm.c:46-48 | every block that fits in MAX_HEAP has a bucket below LIST_SIZE |
| MmLayout.TiledSum | malloclab-handout/mm.c:120-123 | the block sizes of a tiled heap add up to the break |
| MmLayout.StartsUnique | malloclab-handout/mm.c:120-123 | two blocks of a tiled heap with the same start are the same block |
| MmLayout.FindBlock | malloclab-handout/mm.c:179 | a block start names exactly one block |
| MmLayout.WordsOf | malloclab-handout/mm.c:70-76 | p_h_size is the word at b + 8 and p_t_size the word at b + size - 8 |
| MmLayout.TagsKeep | malloclab-handout/mm.c:120-123 | a block keeps its tags and payload when the words change only in link words and in bytes outside it |
| MmLists.RemoveAt | malloclab-handout/mm.c:90-106 | removing the first occurrence of b at position k leaves the entries before and after k, in order |
| MmLists.RemoveAbsent | malloclab-handout/mm.c:94-105 | erasing a block its bucket does not hold leaves the bucket as it was |
| MmLists.RemoveElems | malloclab-handout/mm.c:90-106 | in a duplicate-free bucket, x remains after removing b exactly when x was there and is not b |
| MmLists.EmptyListsOk | malloclab-handout/mm.c:65 | all roots NULL is a well-formed bucket table with nothing listed |
| MmLists.LinkedPush | malloclab-handout/mm.c:86-87 | writing the old root into b's link word and making b the root gives the chain with b in front |
| MmLists.ListsOkPush | malloclab-handout/mm.c:82-88 | insert keeps the table well formed and adds exactly b to the listed blocks |
| MmLists.LinkedTail | malloclab-handout/mm.c:98-99 | moving the root to the head's link gives the chain without its head |
| MmLists.LinkedCut | malloclab-handout/mm.c:96-97 | copying the k-th entry's link into its predecessor's link gives the chain without entry k |
| MmLists.ListsOkUnlinkHead | malloclab-handout/mm.c:98-100 | erase of a bucket's first entry keeps the table well formed and unlists exactly that entry |
| MmLists.ListsOkUnlinkAfter | malloclab-handout/mm.c:96-97 | erase of a later entry keeps the table well formed and unlists exactly that entry |
| MmLists.ListedBucket | malloclab-handout/mm.c:91 | a block can be listed only in the bucket its header selects, so erase only needs to search that one |
| MmLists.ScanFound | malloclab-handout/mm.c:134-162 | what the bucket scan finds is a listed block of at least newsize bytes, at or after the position the scan started from |
| MmLists.ScanMissed | malloclab-handout/mm.c:134-162 | when the scan finds nothing, every block it passed is smaller than newsize |
| MmLists.FitFound | malloclab-handout/mm.c:134-162 | the search's result is a listed block whose header is at least newsize |
| MmLists.FitMissing | malloclab-handout/mm.c:134-162 | when the search finds nothing, no listed block in any bucket is large enough, including the buckets below the starting one |
| MmHeap.SpliceTiled | malloclab-handout/mm.c:198-210 | replacing a run of blocks by blocks covering the same bytes keeps the heap tiled |
| MmHeap.ExtendTiled | malloclab-handout/mm.c:163-167 | a block appended at the break extends the tiling to the new break |
| MmHeap.ExtendTags | malloclab-handout/mm.c:163-169 | the appended block keeps every old block's tags and payload |
| MmHeap.ExtendStarts | malloclab-handout/mm.c:163-167 | the appended block adds its start to the free or to the allocated starts, according to its kind |
| MmHeap.ExtendClear | malloclab-handout/mm.c:163-168 | nothing listed or allocated lies at the old break, where the new block's tags go |
| MmHeap.NewTag | malloclab-handout/mm.c:168-169 | the two marking writes make a correctly tagged allocated block |
| MmHeap.ExtendOk | malloclab-handout/mm.c:163-169 | growing the heap and marking the new block keeps the heap invariant, adds one allocated block and keeps every old block |
| MmHeap.CarveCovers | malloclab-handout/mm.c:150-156 | the taken block becomes an allocated block of at least newsize bytes, plus a free remainder exactly when 32 bytes or more are left; together they cover the old block |
| MmHeap.CarveSeparated | malloclab-handout/mm.c:150-156 | taking a free block never puts two free blocks side by side |
| MmHeap.CarveStarts | malloclab-handout/mm.c:150-156 | the taken start becomes allocated, and a split-off remainder becomes free |
| MmHeap.CarveOk | malloclab-handout/mm.c:148-169 | carving keeps the heap tiled and tagged, and every other block with its payload |
| MmHeap.SumRun | malloclab-handout/mm.c:198-207 | the sizes summed by mm_free add up to the bytes from the first merged block to the end of the last |
| MmHeap.MergeBounds | malloclab-handout/mm.c:181-207 | mm_free merges at most the predecessor, the block itself and the successor |
| MmHeap.CoalesceTiled | malloclab-handout/mm.c:198-210 | the merged free block leaves the heap tiled |
| MmHeap.RunKinds | malloclab-handout/mm.c:183-196 | the merged run holds the freed block, which is allocated, plus exactly the free neighbours the boundary tests let through |
| MmHeap.CoalesceKind | malloclab-handout/mm.c:198-210 | after the merge, the starts of each kind are the old ones minus the run's, plus the merged block if it is free |
| MmHeap.CoalesceKinds | malloclab-handout/mm.c:198-210 | the freed block leaves the allocated starts; the absorbed neighbours leave the free starts; the merged block joins them |
| MmHeap.CoalesceOk | malloclab-handout/mm.c:198-210 | the merge keeps the heap tagged, and every other allocated block with its payload |
| MmHeap.CoalesceSeparated | malloclab-handout/mm.c:183-196 | if neither boundary test skips a free neighbour, freeing keeps free blocks apart |
| MmHeap.CoalesceSkipsSmallFirst | malloclab-handout/mm.c:183 | the predecessor test `ptr - 32 >= heap_lo` leaves a free 24-byte first block unmerged beside the freed block |
| MmHeap.CoalesceSkipsSmallLast | malloclab-handout/mm.c:189 | the successor test `ptr + size + 32 <= heap_hi` leaves a free 32-byte last block unmerged beside the freed block |
| MmHeap.KindsApart | malloclab-handout/mm.c:120-123 | no start is both free and allocated |
| MmHeap.PrevFooter | malloclab-handout/mm.c:183-188 | the word below a block is its predecessor's footer; it is even exactly when the predecessor is free, and then `ptr - *(ptr - 8)` is the predecessor's start |
| MmHeap.FooterParity | malloclab-handout/mm.c:185 | a footer is even exactly when its block is free |
| MmHeap.NextTags | malloclab-handout/mm.c:189-196 | past the bound test, the next block starts at ptr + size; its header holds its size, and its footer is odd exactly when it is allocated |
| MmHeap.PayloadWriteOk | malloclab-handout/mm.c:235 | a write into a payload keeps the heap invariant and every other block's payload |
| MmAlloc.Allocator.constructor | malloclab-handout/mm.c:63-68 | a fresh allocator is valid and has an empty heap and nothing listed |
| MmAlloc.Allocator.Init | malloclab-handout/mm.c:63-68 | every root is NULL, every heap word is the 0xff fill, and the heap is empty and valid |
| MmAlloc.Allocator.Sbrk | malloclab-handout/mm.c:164-166 | mem_sbrk returns the old break and moves it up, or returns NULL without moving it when the heap would pass MAX_HEAP |
| MmAlloc.Allocator.Insert | malloclab-handout/mm.c:82-88 | the footer gets the header's value and b's link gets the old root; b becomes the root and the head of its bucket; the table stays well formed |
| MmAlloc.Allocator.Erase | malloclab-handout/mm.c:90-106 | b leaves the bucket its header selects, the others in order; only that root and link words of that bucket change; nothing changes when b is absent |
| MmAlloc.Allocator.EraseAt | malloclab-handout/mm.c:95-101 | the unlink step: the predecessor's link, or the root, takes b's link; the table stays well formed and b is no longer listed |
| MmAlloc.Allocator.FindFit | malloclab-handout/mm.c:134-162 | the search loop returns FirstFit, the first block of at least newsize bytes in bucket order, and changes nothing |
| MmAlloc.Allocator.Malloc | malloclab-handout/mm.c:129-171 | returns the first fit + 16; otherwise the old break + 16 after growing the heap by ALIGN(size + 24); otherwise NULL with nothing changed. The block handed out is allocated, is new, has room for the request, and every other allocated block keeps its payload. The block list is Allotted: on a fit it becomes Taken (the fit cut to ALIGN(size + 24) with the rest free and listed when 32 bytes or more remain, else the whole fit); on growth the new block is appended; when full it is unchanged |
| MmAlloc.Allocator.Extend | malloclab-handout/mm.c:163-169 | the heap grows by newsize bytes and the new block is allocated at the old break; NULL, with nothing changed, when the heap is full |
| MmAlloc.Allocator.TakeFit | malloclab-handout/mm.c:143-169 | the fit found becomes allocated with the header `newsize` (split or whole) and the block list becomes Taken; every other block keeps its payload |
| MmAlloc.Allocator.Place | malloclab-handout/mm.c:150-169 | the split happens when 32 bytes or more remain, then the marking: the words are PlaceWords, and the remainder is pushed on its bucket |
| MmAlloc.Allocator.Cut | malloclab-handout/mm.c:150-156 | newsize is the request when 32 bytes or more remain (and the remainder is written and inserted), and the whole block otherwise |
| MmAlloc.Allocator.Split | malloclab-handout/mm.c:150-153 | the remainder at p + newsize gets its size in header and footer and goes on its bucket |
| MmAlloc.Allocator.MarkUsed | malloclab-handout/mm.c:168-169 | the header takes the size and the footer gets its low bit set |
| MmAlloc.Allocator.MarkListed | malloclab-handout/mm.c:168-169 | marking a block that is off the lists keeps the bucket table |
| MmAlloc.Allocator.Free | malloclab-handout/mm.c:176-212 | the block list becomes Coalesce (the freed block merged with the neighbours the boundary tests let through); exactly that block stops being allocated; every other allocated block keeps its payload |
| MmAlloc.Allocator.Neighbours | malloclab-handout/mm.c:181-196 | pr and ne are the predecessor and successor exactly when they are free and their boundary test passes, and NULL otherwise |
| MmAlloc.Allocator.PrevFree | malloclab-handout/mm.c:183-188 | the predecessor half of that, read through the footer below the block |
| MmAlloc.Allocator.NextFree | malloclab-handout/mm.c:189-196 | the successor half, read through the next block's footer |
| MmAlloc.Allocator.Absorb | malloclab-handout/mm.c:198-207 | new_size is the sum of the merged blocks' sizes and ptr the first of them; the absorbed neighbours leave their buckets; only link words change |
| MmAlloc.Allocator.Unlink | malloclab-handout/mm.c:199-207 | a free neighbour's size is read and the neighbour is erased from its bucket |
| MmAlloc.Allocator.PutFree | malloclab-handout/mm.c:208-210 | the block's header and footer hold its size, and it goes on the front of its bucket |
| MmAlloc.Allocator.Realloc | malloclab-handout/mm.c:217-238 | the mm_malloc and mm_free calls made by Fresh, Release and Move, in order, are ReallocCalls, so nothing is freed twice (ReallocFreesOnce). NULL ptr: the block list is Allotted as in mm_malloc. Size 0: the block list is Coalesce and exactly the old block is released. Otherwise a new block holds the first CopyCount words of the old payload and the old block is freed; on failure nothing changes. On every path every other allocated block keeps its place and payload |
| MmAlloc.Allocator.Fresh | malloclab-handout/mm.c:229-231 | mm_malloc as realloc uses it, recording the call: the block list is Allotted, the new block is not the one being moved, and every allocated block keeps its payload |
| MmAlloc.Allocator.Release | malloclab-handout/mm.c:219-221 | mm_free as realloc uses it, recording the call: the block list becomes Coalesce, exactly the old block stops being allocated, and every other allocated block keeps its place and payload |
| MmAlloc.Allocator.Move | malloclab-handout/mm.c:225-237 | records mm_malloc, then mm_free only when mm_malloc succeeded; the payload moves to a newly granted block and the old one is freed; every other allocated block keeps its place and payload; NULL with nothing changed when mm_malloc fails |
| MmAlloc.Allocator.CopyAndFree | malloclab-handout/mm.c:232-236 | measured from before the mm_malloc: the result is Relocated, i.e. the granted block replaces the old one among the allocated blocks, the first CopyCount old payload words are in it, and every other allocated block keeps its place and payload |
| MmAlloc.Allocator.CopyThenFree | malloclab-handout/mm.c:232-236 | the copy followed by the free: the moved words survive the free, exactly the old block is released, and every allocated block other than those two keeps its place and payload |
| MmAlloc.Allocator.CarryOver | malloclab-handout/mm.c:232-235 | the copy length is read from the old header, and that many bytes, rounded up to words, go to the new payload; every other block keeps its payload |
| MmAlloc.Allocator.FreeOld | malloclab-handout/mm.c:236 | the old block is freed and records the call; the new block survives with its payload, and so does every other allocated block |
| MmAlloc.Allocator.PutWord | malloclab-handout/mm.c:235 | one word stored into a payload changes that word only and keeps the heap valid |
| MmAlloc.Allocator.CopyWords | malloclab-handout/mm.c:235 | memcpy word by word: the n words at src appear at dst, every other payload is kept, and the heap stays valid |
| MmAlloc.Allocator.CopyOne | malloclab-handout/mm.c:235 | one step of that copy extends the copied prefix by one word |
| MmAlloc.InsertOk | malloclab-handout/mm.c:82-88 | the words, roots and lists after insert form a well-formed table, and b's bucket is not rooted at b already (the source's assert) |
| MmAlloc.EraseAfter | malloclab-handout/mm.c:96-97 | unlinking a later entry changes only the predecessor's link and unlists exactly b |
| MmAlloc.EraseHead | malloclab-handout/mm.c:98-99 | unlinking the head moves the root and unlists exactly b |
| MmAlloc.EraseMissing | malloclab-handout/mm.c:94-105 | erase of an absent block leaves the lists unchanged |
| MmAlloc.AbsorbedIs | malloclab-handout/mm.c:181-207 | the neighbours mm_free finds are the free blocks beside it, and start and new_size span the merged run |
| MmAlloc.FreeClear | malloclab-handout/mm.c:198-210 | nothing still listed lies where mm_free writes the merged block's tags and link |
| MmAlloc.FreeFinish | malloclab-handout/mm.c:198-211 | after the erases, the tag writes and the insert, the coalesced heap is valid, exactly the freed block left the allocated ones, and the other allocated blocks are kept |
| MmAlloc.TakeErased | malloclab-handout/mm.c:148-149 | after erase, the taken block's tags are intact, only link words changed, and nothing listed lies in it |
| MmAlloc.PlaceWordsAt | malloclab-handout/mm.c:150-169 | the split and marking writes stay inside the taken block and write the carved blocks' headers and footers |
| MmAlloc.CarveTagged | malloclab-handout/mm.c:150-169 | those headers and footers tag the carved blocks correctly |
| MmAlloc.MarkTags | malloclab-handout/mm.c:150-169 | after the placement, the carved blocks carry their tags |
| MmAlloc.TakeFinish | malloclab-handout/mm.c:143-169 | after the erase, split and marking, the heap is valid, the taken block is allocated, and every other block is kept |
| MmAlloc.CopyStep | malloclab-handout/mm.c:235 | one word copied between disjoint ranges extends the copied prefix |
| MmAlloc.Apart | malloclab-handout/mm.c:235 | the words copied out of one payload miss every other block, so memcpy's ranges do not overlap |
| MmAlloc.MovedKeptSrc | malloclab-handout/mm.c:229-235 | mm_malloc keeps the old payload, so the copy moves the words that were there before the call |
| MmAlloc.MovedKeptDst | malloclab-handout/mm.c:235-236 | mm_free keeps the new payload, so the copied words are still there after it |
| MmAlloc.KeptThrough | malloclab-handout/mm.c:235-236 | the memcpy keeps every payload but the new block's, and mm_free every allocated block but the old one, so together they keep every other allocated block |
| MmAlloc.KeptChain | malloclab-handout/mm.c:229-236 | mm_malloc keeps every allocated block and hands out a new one, so after the copy and free every block allocated before realloc, except the old one, keeps its place and payload |
| MmAlloc.GrantedNew | malloclab-handout/mm.c:229-231 | the block mm_malloc grants is not the block being moved |
| MmRealloc.CopySize | malloclab-handout/mm.c:232-234 | the bytes carried over are the smaller of the request and the old payload (header minus 24) |
| MmRealloc.CopyWithin | malloclab-handout/mm.c:232-235 | the whole words copied cover copySize and stay inside the old payload |
| MmRealloc.CopyFits | malloclab-handout/mm.c:229-235 | they also fit in the payload of the new block |
| MmRealloc.FreesOf | malloclab-handout/mm.c:217-238 | counts the releases of p in a call sequence: zero exactly when p is never released |
| MmRealloc.ReallocFreesOnce | malloclab-handout/mm.c:217-238 | realloc releases at most one pointer, never NULL, and releases ptr exactly when ptr is not NULL and either size is 0 or the new block was had |
| MmFindings.NewsizeTruncates | malloclab-handout/mm.c:131 | as written, size 2^32 gets a 24-byte block and size 2^31 - 16 a negative newsize |
| MmFindings.NewsizeAgrees | malloclab-handout/mm.c:131 | below 2 GiB the int newsize is ALIGN(size + 24) |
| MmFindings.ReallocZeroFreesTwice | malloclab-handout/mm.c:219-224 | as written, realloc(p, 0) frees p twice once mm_malloc(0) succeeds, and realloc(NULL, 0) frees NULL |
| MmFindings.ReallocCallsAgree | malloclab-handout/mm.c:219-237 | for a non-zero size, the as-written call sequence is the corrected one |
| MmFindings.CopyOverreads | malloclab-handout/mm.c:232-235 | the as-written copy length exceeds the old payload exactly when the request does |
| MmFindings.CopyOverreadsExample | malloclab-handout/mm.c:232-235 | a 32-byte old block resized to 100 bytes copies 32 bytes where only 8 are payload |
| CacheSim.AndField | cachelab-handout/csim.c:101 | masking bits [lo, hi) and shifting right by lo gives that bit field |
| CacheSim.BuildMask | cachelab-handout/csim.c:96-99 | OR-ing the bits lo..hi-1 one at a time gives 2^hi - 2^lo |
| CacheSim.GetSetId | cachelab-handout/csim.c:92-102 | get_set_id returns the bits [b, b + s) of the address, a set index below 2^s |
| CacheSim.GetTag | cachelab-handout/csim.c:104-113 | get_tag returns the bits from b + s upwards |
| CacheSim.AddressSplit | cachelab-handout/csim.c:92-113 | tag, set index and block offset put together give back the address |
| CacheSim.SameBlock | cachelab-handout/csim.c:92-113 | two addresses lie in the same memory block exactly when their tag and set index agree |
| CacheSim.SearchLine | cachelab-handout/csim.c:115-124 | returns the first line holding the tag, or -1 exactly when no line holds it |
| CacheSim.ToTail | cachelab-handout/csim.c:126-147 | move_to_tail puts line k last and keeps the others in order; the tail stays put; the lines are a permutation of the old ones |
| CacheSim.ToTailTouch | cachelab-handout/csim.c:126-147 | without repeated tags, move_to_tail removes the tag and appends it |
| CacheSim.Touch | cachelab-handout/csim.c:149-190 | after one access the set holds at most E lines, and the accessed tag is last |
| CacheSim.WithoutMembers | cachelab-handout/csim.c:126-147 | removing a tag keeps every other tag |
| CacheSim.RecencyDistinct | cachelab-handout/csim.c:149-190 | the recency order of a history has no repeats and holds exactly the tags used |
| CacheSim.RecencySnoc | cachelab-handout/csim.c:149-190 | one more access moves its tag to the newest end of the recency order |
| CacheSim.LruShape | cachelab-handout/csim.c:160-171 | a set never holds more than E lines or a tag twice, and holds only tags it was accessed with |
| CacheSim.LastNHit | cachelab-handout/csim.c:181-188 | a hit: the new LRU contents are the old ones with the tag moved to the end |
| CacheSim.LastNRoom | cachelab-handout/csim.c:160-171 | a miss with room: the new tag is appended |
| CacheSim.LastNEvict | cachelab-handout/csim.c:172-180 | a miss in a full set: the least recently used tag goes and the new tag is appended |
| CacheSim.LruStep | cachelab-handout/csim.c:149-190 | data_access's step on a set holding the LRU contents of its history gives the LRU contents of the history plus the access |
| CacheSim.SetAccess | cachelab-handout/csim.c:152-188 | the outcome is a hit exactly when the tag is present, and an eviction exactly on a miss in a full set; the new lines are Touch |
| CacheSim.AfterRecordKinds | cachelab-handout/csim.c:205-212 | an I record makes no access, L and S one, and M two to the same set and tag |
| CacheSim.SetsMatchTouch | cachelab-handout/csim.c:149-190 | touching a set with an access keeps every set equal to the LRU contents of its history |
| CacheSim.TallyPartition | cachelab-handout/csim.c:149-190 | every access of a set's history is exactly one of hit, miss without eviction, and miss with eviction |
| CacheSim.CountsStep | cachelab-handout/csim.c:152-188 | one access adds one to the tally of its outcome and nothing to the other two |
| CacheSim.ConsistentStep | cachelab-handout/csim.c:149-190 | an access keeps the sets equal to the LRU contents of their histories and the three counters equal to the outcome tallies of those histories |
| CacheSim.Cache.constructor | cachelab-handout/csim.c:198-199 | 2^s empty sets and zero counts |
| CacheSim.Cache.Access | cachelab-handout/csim.c:149-190 | only the address's set changes, by Touch; the outcome matches the lines; exactly one of hits and misses grows, and evictions grows exactly on an eviction; every set stays the LRU contents of its history |
| CacheSim.Cache.Replay | cachelab-handout/csim.c:205-212 | a record makes as many accesses as its kind says; an I changes nothing; for L, S and M the first access is a hit exactly when the tag is in its set and an eviction exactly when it is absent from a full set, and the second access of an M always hits |
| CacheSim.Cache.Run | cachelab-handout/csim.c:204-216 | after a trace, the histories are those of the trace, and the hits, misses and evictions csim prints are HitsOf, MissesOf and EvictionsOf those histories (the outcome of each access replayed against the LRU contents before it); hits + misses is the number of data accesses |
| Transpose.TransposedSymmetric | cachelab-handout/trans.c:2 | B = A^T exactly when A = B^T |
| Transpose.TransposedUnique | cachelab-handout/trans.c:2 | two matrices that both hold A^T agree everywhere |
| Transpose.Trans | cachelab-handout/trans.c:108-119 | the row-wise scan leaves B = A^T and A unchanged |
| Transpose.WriteTile | cachelab-handout/trans.c:30-93 | the 64 assignments of one tile write exactly the 8×8 cells of that tile, once each, with A's mirrored values; every other cell is unchanged |
| Transpose.TransposeSubmit | cachelab-handout/trans.c:26-97 | when both dimensions are multiples of 8, B = A^T with every cell written exactly once; otherwise B is unchanged; A is never changed |
| Transpose.IsTranspose | cachelab-handout/trans.c:143-155 | returns 1 exactly when B = A^T, and 0 otherwise |

## Left out

- Heap addresses are byte offsets from `mem_heap_lo()`, and the heap is an array of 8-byte words. NULL is -1, because offset 0 is the first block. `mem_heap_hi()` is the break minus 1.
- MAX_HEAP is taken as 20 MiB, the lab's usual configuration. `config.h` is not part of this model; `LIST_SIZE` follows from it (1184).
- `mem_sbrk` is modelled from its documented behaviour: it fails on a negative increment and beyond MAX_HEAP. `memlib.c` is not part of this model, and neither is the driver's `mem_reset_brk`, which `Init` stands in for.
- `print_list` and the commented-out debug output in `mm_malloc` print only and are not modelled.
- The source's `assert`s are not modelled as aborts:
  - `mm_free(NULL)` and a pointer that is not an allocated payload are excluded by `Free`'s precondition.
  - The assert in `insert` is the `roots[i] != b` of `InsertOk`.
- MmAlloc.Allocator.NextFree: in the source, the successor's footer is read even when the header's parity test fails (then through NULL). Header words always hold multiples of 8, so that test always passes. The model reads the footer only inside it.
- MmAlloc.Allocator.Move: the block list after a move is not given as an exact sequence. The contract gives the granted block, the release of the old block, and the place and payload of every other allocated block; free blocks, and how the freed block merged, are left to `Valid()`.
- MmAlloc.Allocator.CarryOver: `memcpy` is byte-wise in the source and word-wise here. Up to 7 bytes past `copySize` are copied, and they lie inside both payloads.
- MmAlloc.Allocator.Malloc: `size` is unbounded. The 32-bit `int newsize` is a Finding, below; the model uses the intended `ALIGN(size + 24)`.
- Heap words are unbounded integers. Every value the allocator stores is a size below MAX_HEAP, an offset, or the fill `2^64 - 1`, so nothing wraps.
- csim's command-line parsing (`set_opt`, `print_help_info`), `fopen`/`fscanf` trace reading, the verbose output and `printSummary` are I/O. A trace is given as a sequence of records.
- `get_set_id`/`get_tag` cache their mask in a `static` variable. The model rebuilds it on every call; the value is the same.
- The per-set linked list of `malloc`ed nodes is a sequence of tags, least recently used first. Node allocation and its failure are not modelled, and `move_to_tail`'s pointer walk is the function `ToTail`.
- CacheSim.Cache.Access: the hit, miss and eviction counters are unbounded, where the source uses `int`. The access size is read but not used by `data_access`, and is ignored.
- CacheSim.Cache.constructor requires `E >= 1` and `b + s < 64`:
  - with `E = 0` the eviction path dereferences an empty list;
  - with `b + s = 64` the shift by 64 in `get_tag` is undefined.
- `registerFunctions`, the driver and the cache-miss target of the transpose exercise are not modelled. Matrices are `array2<int>`, and `A` and `B` are distinct.
- Transpose.WriteTile: the 64 unrolled assignments of a tile are a double loop in the same order, row of `A` by row.

## Findings

| source | as written | input that shows it | evidently intended | confidence | as-written member | corrected member |
|---|---|---|---|---|---|---|
| malloclab-handout/mm.c:131 | `int newsize = ALIGN(size + 24)` keeps only the low 32 bits of a 64-bit size | `size = 2^32` gets a 24-byte block with no payload; `size = 2^31 - 16` gives a negative newsize | `newsize = ALIGN(size + 24)` in `size_t` | not executed | MmFindings.NewsizeTruncates | MmLayout.Align |
| malloclab-handout/mm.c:219-224 | the zero-size branch calls `mm_free(ptr)` and falls through to the rest of the function | `realloc(p, 0)` frees `p`, allocates, then frees `p` again; `realloc(NULL, 0)` calls `mm_free(NULL)`, whose assert fails | return NULL after the free, and treat a NULL pointer as `mm_malloc` first | not executed | MmFindings.ReallocZeroFreesTwice | MmRealloc.ReallocFreesOnce |
| malloclab-handout/mm.c:232-234 | `copySize` is the old block's header value, which counts the 24 bytes of link, header and footer | old block of 32 bytes (8 payload bytes) resized to 100: 32 bytes are copied, reading 24 bytes past the payload | `copySize = min(size, header - 24)` | not executed | MmFindings.CopyOverreads | MmRealloc.CopyWithin |
