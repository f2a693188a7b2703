# CometOS kernel core in Dafny

This project models the parts of the CometOS kernel and its C library whose correctness is hardest
to see, and proves what they promise.

* **The boundary-tag allocator.** `BoundaryTags` states the data and six local invariants of tags,
  split links, free lists and cached counts. `TagInvariants` and `TagSteps` prove that each list and
  split operation keeps them. `AllocatorSpec` gives `malloc` and `free` as functions. `FreeLists`,
  `LiveBlocks`, `TagEffects`, `HeapTheorems` and `HeapRuns` prove what that means for the search, for
  callers, for every tag, for whole regions and for every run. `Allocator` is the C code itself over
  little-endian byte memory (`Memory`, `Payloads`), proved to compute those functions and to leave the
  bytes of every other block alone. `HeapSession` drives that object through any sequence of requests against a byte-level
  ledger, and `HeapExamples` shows concrete runs, two of which fall short of what one might expect.
* **Frames and page tables.** `FrameBitmap` and `Paging`: the two-level tables agree with a flat map,
  and the boot loops build the identity map.
* **Formatting.** `Digits`, `Formatting`, `FormatTable` and `LogNumbers`: number conversion, the
  `printf` format loop against a pure interpreter, a parse of the format into pieces and a table of all
  conversions, and the number printing of the kernel log.
* **The tokenizer.** `Tokenizer`: `strtok_r` on a mutable buffer against maximal delimiter-free segments.
* **The terminal.** `Terminal`: the 25 by 80 screen against an unbounded document.

`Machine` and `Exponent` hold 32-bit arithmetic and the power-of-two buckets. Pointers are addresses or
indices, null is 0 (-1 in the tokenizer). What the page provider answers, and what memory happens to
hold, are inputs. The public behaviour aimed at is that of sections 7.21.6, 7.22.3 and 7.24.5 of
ISO/IEC 9899:2011, `strtok_r` of POSIX.1-2008 and 32-bit paging as in section 4.3 of the Intel Software
Developer's Manual, Volume 3A.

Where the code departs from what one would expect, the model follows the code:

* `malloc` searches only the bucket of the request (`CandidateExact`), so a larger free tag does not
  keep it from failing (`LargerTagIgnored`).
* `malloc` of a size whose sum with the header wraps either reuses a tag too small for it
  (`WrappedSearch`) or asks for one page (`WrappedRequest`), in which the split puts a header on top of
  the tag's own (`WrappedSplit`). The tag settled on holds the request exactly when the sum does not
  wrap (`SettledHolds`).
* `realloc` whose allocation fails copies to address 0 and frees the old block, where the C standard
  keeps it (`LostByRealloc`). The model covers this when no tag lies in the bytes overwritten.
* `bitmap_entrie_find` never reports failure: without a run of the wanted entries it reads outside the
  bitmap (`Find`).
* `printf` returns the number of literal characters, without those its conversions print.
* `print_dec` pads with zeros of its own above 1410065407 (`DecWidthMinimal`).
* A backspace at column 0 wraps the column and may write outside the screen (`SafeExactly`).
* A new page table is filled with the identity map of the lowest 4 MiB whatever its slot.
* `%p` prints in base 10, and `%c` and `%s` accept any length modifier.

`dafny verify dfyconfig.toml` checks the whole project.

## Model

| member | source | states |
|---|---|---|
| HeapRuns.RunSound | kernel/arch/i386/mem/liballoc.c:288-493 | after every legal run of `malloc` and `free`, whatever the provider answers, all regions are tiled by their split chains, all buckets are proper lists, no two neighbours are both free, all cached counts are exact and all blocks are apart |
| HeapRuns.RunCalls | kernel/arch/i386/mem/liballoc.c:288-493 | over every run a pointer handed out is never one already held, only held pointers are given back, and the blocks in use at the end are those the calls account for |
| HeapRuns.RunEvents | kernel/arch/i386/mem/liballoc.c:244-284 | over every run each return to the provider names a region still granted with its exact page count, and the regions held at the end are the grants not returned |
| HeapRuns.RunAllFreed | kernel/arch/i386/mem/liballoc.c:403-485 | a run whose calls leave nothing held ends with every region one whole free tag, all of them cached, at most five per bucket |
| HeapSession.Session.Run | kernel/arch/i386/mem/liballoc.c:288-539 | on the object, for any sequence of `malloc`, `free`, `realloc` and byte stores: a reference ledger accepts every answer and ends with exactly the bytes callers own and the regions held; a request is skipped exactly when it is not permitted |
| HeapSession.Session.Serve | kernel/arch/i386/mem/liballoc.c:288-539 | one request keeps the object in step with the ledger: blocks apart and inside granted regions, returns named with their page count |
| HeapSession.Session.ServeMalloc | kernel/arch/i386/mem/liballoc.c:288-397 | a block not held, of the requested size; refused only when the provider refuses; pages are booked exactly when the block opens a new region |
| HeapSession.Session.ServeFree | kernel/arch/i386/mem/liballoc.c:403-493 | the block leaves the callers' books, what comes back leaves the provider's |
| HeapSession.Session.ServeRealloc | kernel/arch/i386/mem/liballoc.c:514-539 | the three cases of `realloc` as ledger entries: given up, received, or moved to a block that agrees with the ledger on every old byte that fits; lost when refused |
| HeapSession.Session.ServeStore | kernel/arch/i386/mem/liballoc.c:384-396 | a store through a held pointer changes that byte in the ledger and nothing else |
| HeapSession.Session.constructor | kernel/arch/i386/mem/liballoc.c:30-42 | a new allocator starts with empty books, whatever memory holds |
| HeapSession.BooksSane | kernel/arch/i386/mem/liballoc.c:212-284 | under the invariant blocks are apart and each lies in one granted region |
| HeapSession.MallocGrants | kernel/arch/i386/mem/liballoc.c:331-341 | pages were granted exactly when the pointer handed out lies right behind the base the provider named |
| HeapSession.ReallocTakesBack | kernel/arch/i386/mem/liballoc.c:514-539 | what `realloc` adds to and takes from the granted regions |
| TagEffects.MallocTags | kernel/arch/i386/mem/liballoc.c:288-397 | every tag after `malloc`, from the state before: the block has the requested size; an excess of at least 256 bytes behind another header becomes a free tag right behind the bytes, first of its list; a smaller excess stays in the block; all other tags keep span, size and list |
| TagEffects.FreeTags | kernel/arch/i386/mem/liballoc.c:403-485 | every tag after `free`, from the state before: the block joins its free neighbours; the result goes back to the provider if and only if it is a whole region and five whole free regions of its size class are held already, with its base and page count; if not, it is kept as the first free tag of its class; all other tags keep span, size and list |
| TagEffects.WholeCounted | kernel/arch/i386/mem/liballoc.c:454-470 | the cached count of a class is the number of free tags in it that cover a whole granted region |
| HeapRuns.MallocThenFree | kernel/arch/i386/mem/liballoc.c:288-493 | what `malloc` hands out may be given back, and callers then own what they owned before |
| HeapRuns.FirstCallLegal | kernel/arch/i386/mem/liballoc.c:288-397 | any page answer starts a legal run, and the first pointer lies right behind the header of the new region |
| HeapRuns.Final | kernel/arch/i386/mem/liballoc.c:288-493 | every legal run keeps the invariant |
| HeapRuns.Empty | kernel/arch/i386/mem/liballoc.c:296-307 | the state before the first call satisfies the invariant, with no blocks and no regions |
| Allocator.Liballoc.Malloc | kernel/arch/i386/mem/liballoc.c:288-397 | over byte memory: computes `AllocatorSpec.Malloc`; writes only under headers; null exactly when no tag of the size class of the request (bucket 8 below 256 bytes, else the n with 2^n <= size < 2^(n+1)) has room for it and another header and the provider refuses; otherwise a new pointer to `size` bytes while every other block keeps its bytes |
| Allocator.Liballoc.Free | kernel/arch/i386/mem/liballoc.c:403-493 | computes `AllocatorSpec.Free` and what the provider is told, which `TagEffects.FreeTags` states outright; writes only under headers; takes exactly the named block away, every other block keeps its bytes; null does nothing |
| Allocator.Liballoc.Realloc | kernel/arch/i386/mem/liballoc.c:514-539 | computes `LiveBlocks.Realloc`; size 0 frees; null allocates; on success the old block is gone and the new one has, byte by byte, the old bytes that fit, all other blocks unchanged; when the allocation fails null is returned and the old block is lost |
| Allocator.Liballoc.Move | kernel/arch/i386/mem/liballoc.c:527-538 | the general case of `realloc`: allocate, copy, free |
| Allocator.Liballoc.CopyBlock | kernel/arch/i386/mem/liballoc.c:535-535 | copying into one live block changes only that block and no header |
| Allocator.Liballoc.Store | kernel/arch/i386/mem/liballoc.c:384-396 | a caller storing through the pointer it was given changes that byte of that block, no other block and no header |
| Allocator.Overwrite | kernel/arch/i386/mem/liballoc.c:384-396 | a store changes one byte and no other |
| Allocator.Liballoc.InsertTag | kernel/arch/i386/mem/liballoc.c:148-169 | memory and list heads end up holding `BoundaryTags.Insert` with the bucket of the tag's size |
| Allocator.Liballoc.RemoveTag | kernel/arch/i386/mem/liballoc.c:171-181 | memory and list heads end up holding `BoundaryTags.Remove` |
| Allocator.Liballoc.MeltIntoLeft | kernel/arch/i386/mem/liballoc.c:184-194 | the left neighbour takes over the span and right link of the tag, without 32-bit wrap |
| Allocator.Liballoc.AbsorbRight | kernel/arch/i386/mem/liballoc.c:197-210 | the right neighbour leaves its list and the tag takes over its span |
| Allocator.Liballoc.SplitTag | kernel/arch/i386/mem/liballoc.c:212-236 | a new free tag is cut off behind the requested bytes and listed in its bucket; what memory held there does not matter |
| Allocator.Liballoc.AllocateNewTag | kernel/arch/i386/mem/liballoc.c:244-284 | a granted region becomes one in-use tag of `PagesFor(size)` pages; a refusal changes nothing |
| Allocator.Liballoc.Initialize | kernel/arch/i386/mem/liballoc.c:296-307 | the lazy initialisation changes no abstract state |
| Allocator.Liballoc.FindTag | kernel/arch/i386/mem/liballoc.c:309-328 | the search loop ends and finds the first tag of the bucket with room, or null |
| Allocator.Liballoc.TakeTag | kernel/arch/i386/mem/liballoc.c:344-347 | the tag leaves its list and a whole region leaves the count of its bucket |
| Allocator.Liballoc.SettleTag | kernel/arch/i386/mem/liballoc.c:309-352 | a fitting tag is reused or a region granted, and the size recorded |
| Allocator.Liballoc.TrimTag | kernel/arch/i386/mem/liballoc.c:360-380 | the excess is split off exactly when the unsigned difference, cast to int, is positive and has an exponent |
| Allocator.Liballoc.MeltLeftLoop | kernel/arch/i386/mem/liballoc.c:429-437 | the left merge loop ends after at most one turn |
| Allocator.Liballoc.MeltRightLoop | kernel/arch/i386/mem/liballoc.c:439-446 | the right merge loop ends after at most one turn |
| Allocator.Liballoc.Settled | kernel/arch/i386/mem/liballoc.c:449-485 | a surplus whole region goes back to the provider with its base and page count, anything else is listed and counted |
| Allocator.Liballoc.BucketOf | kernel/arch/i386/mem/liballoc.c:450-451 | the bucket of a tag by the `getexp` loop |
| Allocator.Liballoc.constructor | kernel/arch/i386/mem/liballoc.c:30-42 | static storage satisfies the object invariant, whatever memory holds |
| AllocatorSpec.Malloc | kernel/arch/i386/mem/liballoc.c:288-397 | keeps the invariant; null only with the state unchanged; the pointer does not wrap, not even at the top of the address space |
| AllocatorSpec.Free | kernel/arch/i386/mem/liballoc.c:403-493 | keeps the invariant |
| AllocatorSpec.Settle | kernel/arch/i386/mem/liballoc.c:309-352 | the tag settled on holds the request with less than 2^31 bytes to spare and has no free neighbour |
| AllocatorSpec.Trim | kernel/arch/i386/mem/liballoc.c:360-380 | after the split test the full invariant holds again, so a live block wastes less than 288 bytes |
| AllocatorSpec.PagesForFits | kernel/arch/i386/mem/liballoc.c:250-258 | the pages asked for hold header and payload if and only if the 32-bit sum does not wrap, and are then the fewest |
| AllocatorSpec.WrappedRequest | kernel/arch/i386/mem/liballoc.c:250-258 | every request whose sum wraps is given one page, too small for it |
| AllocatorSpec.SplitsExactly | kernel/arch/i386/mem/liballoc.c:360-366 | the wrapped and cast split test means a remainder of at least 256 bytes |
| FreeLists.FirstFitIsFirst | kernel/arch/i386/mem/liballoc.c:313-328 | the search along a list returns the first tag that passes the test, and null only when none does |
| FreeLists.CandidateExact | kernel/arch/i386/mem/liballoc.c:309-328 | the search comes back empty if and only if no tag of the size class of the request has room, and otherwise with the first tag of the list of that class that has; the class is given by powers of two |
| FreeLists.WrappedSearch | kernel/arch/i386/mem/liballoc.c:313-328 | for a size whose sum with the header wraps every tag is too small, and the test accepts exactly those of at least the wrapped sum |
| FreeLists.WrappedSplit | kernel/arch/i386/mem/liballoc.c:360-372 | in the page granted for such a size the split test fires and the new header would lie on top of the tag's own |
| FreeLists.SettledHolds | kernel/arch/i386/mem/liballoc.c:309-341 | the tag found or granted holds header and request if and only if their sum does not wrap |
| HeapExamples.LargerTagIgnored | kernel/arch/i386/mem/liballoc.c:309-341 | after a first request of 2000 bytes a free tag with 2032 bytes is listed, yet a request of 100 gets null when the provider refuses |
| HeapExamples.OwnClassServes | kernel/arch/i386/mem/liballoc.c:309-328 | in the same state a request of 1100 bytes, of the class of that tag, is served from it |
| HeapExamples.FreeCaches | kernel/arch/i386/mem/liballoc.c:449-485 | freeing the only block of a page joins the page again, which is kept as a free tag and not given back |
| HeapExamples.LostByRealloc | kernel/arch/i386/mem/liballoc.c:514-539 | a run in which enlarging a block of 2000 bytes fails and the block is lost |
| AllocatorSpec.JoinLeftGood | kernel/arch/i386/mem/liballoc.c:429-437 | merging left keeps the structure, and the merged tag has no free left neighbour |
| AllocatorSpec.JoinLeftOnce | kernel/arch/i386/mem/liballoc.c:430-430 | by coalescing the second test of the left merge loop fails |
| AllocatorSpec.JoinRightGood | kernel/arch/i386/mem/liballoc.c:439-446 | merging right keeps the structure |
| AllocatorSpec.JoinRightOnce | kernel/arch/i386/mem/liballoc.c:440-440 | by coalescing the second test of the right merge loop fails, and both neighbours are then in use |
| TagSteps.TakeGood | kernel/arch/i386/mem/liballoc.c:344-347 | taking a tag off its list with the count adjusted keeps all six invariants for the other tags; its neighbours are in use |
| TagSteps.GiveGood | kernel/arch/i386/mem/liballoc.c:454-485 | listing a tag whose neighbours are in use restores the full invariant unless its bucket is full of whole regions |
| TagSteps.MeltGood | kernel/arch/i386/mem/liballoc.c:184-194 | a merge keeps all six invariants for the other tags, although it rewrites links of listed tags |
| TagSteps.RemoveGood | kernel/arch/i386/mem/liballoc.c:171-181 | removal keeps all six invariants for the other tags |
| TagSteps.SplitGood | kernel/arch/i386/mem/liballoc.c:212-236 | splitting a tag whose neighbours are in use gives a state with the full invariant |
| TagSteps.CutJunkIndex | kernel/arch/i386/mem/liballoc.c:216-233 | the stale index word under a new header has no effect |
| TagSteps.GrantGood | kernel/arch/i386/mem/liballoc.c:260-283 | a new region keeps the structure of all others |
| TagSteps.WholeRegion | kernel/arch/i386/mem/liballoc.c:454-465 | a tag without neighbours covers exactly one region as granted, and no other tag lies in it |
| TagSteps.ReturnGood | kernel/arch/i386/mem/liballoc.c:457-475 | giving a whole region back keeps the invariant |
| TagInvariants.InsertLists | kernel/arch/i386/mem/liballoc.c:148-169 | insertion at the head keeps all lists doubly linked, ranked and null-terminated |
| TagInvariants.RemoveLists | kernel/arch/i386/mem/liballoc.c:171-181 | removal keeps all lists doubly linked, ranked and null-terminated |
| TagInvariants.MeltLinks | kernel/arch/i386/mem/liballoc.c:184-210 | merging keeps every region tiled |
| TagInvariants.CutLinks | kernel/arch/i386/mem/liballoc.c:212-231 | splitting keeps every region tiled |
| LiveBlocks.MallocBlocks | kernel/arch/i386/mem/liballoc.c:288-397 | `malloc` adds one block of the requested size that was not in use and changes no other; the block is in the first tag of the bucket with room, else at the base granted; null if and only if there is neither |
| LiveBlocks.MallocKeepsLive | kernel/arch/i386/mem/liballoc.c:288-397 | a block in use stays in use across `malloc`, so `realloc` may free it afterwards |
| LiveBlocks.Realloc | kernel/arch/i386/mem/liballoc.c:514-539 | keeps the invariant in all cases |
| LiveBlocks.FreeBlocks | kernel/arch/i386/mem/liballoc.c:403-493 | `free` removes exactly the named block |
| HeapTheorems.RegionsTiled | kernel/arch/i386/mem/liballoc.c:184-284 | following `split_right` from a base meets exactly the tags of the region, each where the last ended with the inverse left link, and the sizes sum to the pages granted |
| FreeLists.BucketLists | kernel/arch/i386/mem/liballoc.c:148-181 | each bucket is an acyclic, null-terminated doubly linked list of exactly the tags with its index, all of its size class |
| FreeLists.InsertPrepends | kernel/arch/i386/mem/liballoc.c:148-169 | as sequences: insertion puts the tag in front of its list and leaves the other lists alone |
| FreeLists.RemoveDeletes | kernel/arch/i386/mem/liballoc.c:171-181 | as sequences: removal takes the tag out of its list, keeps the order and leaves the other lists alone |
| FreeLists.BucketMeaning | kernel/arch/i386/mem/liballoc.c:47-75 | a free tag of payload z is in bucket 8 below 256 bytes and otherwise in bucket n with 2^n <= z < 2^(n+1) |
| HeapTheorems.AllFreed | kernel/arch/i386/mem/liballoc.c:449-485 | with no block in use every region is one whole free tag and the cached counts sum to the number of regions |
| HeapTheorems.PayloadsApart | kernel/arch/i386/mem/liballoc.c:212-236 | a live payload lies in its tag, away from every header and every other live payload |
| HeapTheorems.MallocRegions | kernel/arch/i386/mem/liballoc.c:331-341 | `malloc` holds one region more exactly when it asked and was granted one |
| HeapTheorems.FreeRegions | kernel/arch/i386/mem/liballoc.c:454-475 | what is given back is one region with its granted page count, and no tag is left in it |
| HeapTheorems.InvIsSound | kernel/arch/i386/mem/liballoc.c:244-493 | the local invariants give tiling, listing, coalescing, exact counts and disjoint payloads |
| Payloads.PayloadKept | kernel/arch/i386/mem/liballoc.c:212-236 | bytes of a live block survive any writing of headers |
| Payloads.ContentsAdd | kernel/arch/i386/mem/liballoc.c:288-397 | with only headers written, one block more leaves the bytes of the others |
| Payloads.ContentsDrop | kernel/arch/i386/mem/liballoc.c:403-493 | with only headers written, one block less leaves the bytes of the others |
| Payloads.ContentsWrite | kernel/arch/i386/mem/liballoc.c:384-396 | a write inside one block changes no header and no other block |
| Payloads.ContentsCopy | kernel/arch/i386/mem/liballoc.c:535-535 | a copy from one block to another changes the first bytes of the one only |
| Memory.Memcpy | kernel/arch/i386/mem/liballoc.c:87-110 | copying words and then the remaining bytes is a bytewise copy and changes nothing else |
| Memory.WordCopy | kernel/arch/i386/mem/liballoc.c:94-98 | moving one little-endian word moves its four bytes |
| Memory.PutField | kernel/arch/i386/mem/liballoc.h:15-27 | storing one field of the 32-byte header changes that field only, and no byte outside the header |
| Memory.PutElsewhere | kernel/arch/i386/mem/liballoc.h:15-27 | storing a field leaves every other header alone |
| Exponent.GetExp | kernel/arch/i386/mem/liballoc.c:51-75 | -1 below 256, otherwise the n with 2^n <= size < 2^(n+1), for every 32-bit size |
| Exponent.Log2Unique | kernel/arch/i386/mem/liballoc.c:47-50 | the exponent is the only one with that property |
| Exponent.ClassExactly | kernel/arch/i386/mem/liballoc.c:47-75 | the exponent raised to 8 is the only size class of a number: 8 below 256, else the n with 2^n <= size < 2^(n+1) |
| Exponent.SameBucketExcess | kernel/arch/i386/mem/liballoc.c:309-328 | a tag in the bucket of the request exceeds it by less than 2^31 |
| FrameBitmap.Bitmap.Find | kernel/kernel/array.c:34-57 | the lowest run of equal entries; the search reads outside the bitmap if and only if there is no such run |
| FrameBitmap.Bitmap.Map | kernel/kernel/array.c:59-73 | fills exactly the range, or nothing when it reaches past the end |
| FrameBitmap.Bitmap.Set | kernel/kernel/array.c:24-27 | changes one entry |
| FrameBitmap.FrameAllocator.FrameAlloc | kernel/arch/i386/mem/paging.c:57-72 | returns the address of the lowest free frame and marks it used; the search leaves the bitmap if and only if no frame is free |
| FrameBitmap.FrameAllocator.FrameFind | kernel/arch/i386/mem/paging.c:57-60 | the address of the lowest free frame, without wrap, if and only if there is one |
| FrameBitmap.FrameAllocator.FrameSet | kernel/arch/i386/mem/paging.c:39-43 | marks one frame used |
| FrameBitmap.FrameAllocator.FrameFree | kernel/arch/i386/mem/paging.c:45-49 | the frame is marked 0 and no other mark changes |
| FrameBitmap.FramesNeverShared | kernel/arch/i386/mem/paging.c:39-72 | over every run the used frames are the disjoint union of those reserved at boot and those outstanding |
| FrameBitmap.AllocLowest | kernel/arch/i386/mem/paging.c:57-72 | the frame handed out is the lowest neither reserved nor outstanding |
| FrameBitmap.FreeReleases | kernel/arch/i386/mem/paging.c:45-49 | a frame given back is free and no longer outstanding, all others stay as they are |
| Paging.AddressSpace.PageMap | kernel/arch/i386/mem/paging.c:271-304 | as a flat map: the page goes to its frame, and its word holds that frame and exactly the given flags with the present bit; siblings keep their words, or take the fill when the slot had no table, whose entry is then present, writable and no more; other pages and directory entries are unchanged, and so is every word of memory outside the directory slot and the table; present entries still name distinct tables; misaligned addresses change nothing |
| Paging.AddressSpace.PageUnmap | kernel/arch/i386/mem/paging.c:306-337 | only the named page loses its mapping; its word becomes 0 and no other word changes |
| Paging.AddressSpace.PagePhysaddr | kernel/arch/i386/mem/paging.c:339-368 | the address of the frame the walk finds, null when there is none |
| Paging.AddressSpace.EnsureTable | kernel/arch/i386/mem/paging.c:284-290 | a missing table is the lowest free frame, entered with flags 3 and filled with the identity map of the lowest 4 MiB; only its slot, that frame and its mark change |
| Paging.AddressSpace.SetPage | kernel/arch/i386/mem/paging.c:292-300 | one store changes one page of the flat map and one word of memory |
| Paging.AddressSpace.TableCreate | kernel/arch/i386/mem/paging.c:158-173 | a new table maps the lowest 4 MiB to itself; no other frame changes |
| Paging.AddressSpace.TableMap | kernel/arch/i386/mem/paging.c:191-195 | one directory entry names the table with the given flags and is present exactly when they say so; no other word changes |
| Paging.AddressSpace.DirectoryCreate | kernel/arch/i386/mem/paging.c:230-246 | a new directory is filled with the given flags, hence maps nothing when they are not present; no other frame changes |
| Paging.AddressSpace.ReserveKernel | kernel/arch/i386/mem/paging.c:130-136 | exactly the frames that start below the kernel pointer become used |
| Paging.AddressSpace.MapSelf | kernel/arch/i386/mem/paging.c:143-148 | the call in the loop maps one more page to itself, writable, and adds a table exactly when the slot had none |
| Paging.AddressSpace.MapNext | kernel/arch/i386/mem/paging.c:143-148 | one turn of the loop keeps the identity map, the tables and the marks in step |
| Paging.AddressSpace.NextSlot | kernel/arch/i386/mem/paging.c:143-148 | the first page of a slot finds no table and the next frame free, a later page finds its table |
| Paging.TablesGrow | kernel/arch/i386/mem/paging.c:143-148 | the first page of a slot adds the table right behind the last one, a later page adds none |
| Paging.AddressSpace.MapKernel | kernel/arch/i386/mem/paging.c:142-148 | every page below the kernel pointer maps to itself, present and writable; no frame outside directory and tables changes |
| Paging.AddressSpace.PagingInitialize | kernel/arch/i386/mem/paging.c:130-148 | after boot every page below the kernel pointer maps to itself, present and writable; the directory is the first frame behind the kernel, its entries name with flags 3 the frames behind it, one for each slot, and are 2 otherwise; no other frame changes |
| Paging.PresentWord | kernel/arch/i386/mem/paging.c:300-300 | the word names the frame of the address and carries the flags, the present bit being set |
| Paging.WordBits | kernel/arch/i386/mem/paging.c:300-300 | the writable and the user bit of a word are those of the flags it was made with |
| Paging.Pages | kernel/arch/i386/mem/paging.c:132-137 | the number of frames that start below an address |
| Formatting.Printf | libc/stdio/printf.c:31-209 | the loop ends and prints what the interpreter of the format gives; the result counts the literal characters only, as a 32-bit int |
| Formatting.InterpJoins | libc/stdio/printf.c:31-209 | the output is the concatenation of the literal pieces of the format and of what the n-th conversion makes of the n-th argument, the pieces being found without looking at arguments |
| Formatting.InterpRenders | libc/stdio/printf.c:40-203 | interpreting from any position is rendering the pieces from there |
| Formatting.Decide | libc/stdio/printf.c:54-174 | one look at the format: a conversion that is understood with its modifier, or where the literal run starts and whether interpretation has ended |
| Formatting.ScanLength | libc/stdio/printf.c:99-118 | the table loop finds the longest length modifier |
| Formatting.LongestIsModifier | libc/stdio/printf.c:86-116 | the longest matching row of the table is unique |
| Formatting.ConvertNumber | libc/stdio/printf.c:124-185 | sign and digits of the value fetched at the type the modifier names |
| Formatting.Convert | libc/stdio/printf.c:120-199 | what one conversion prints for its argument |
| Formatting.PrintRun | libc/stdio/printf.c:44-51 | a literal run goes up to the next percent sign |
| Formatting.SignedReadsBack | libc/stdio/printf.c:128-185 | a signed conversion reads back as the value fetched, including the most negative one |
| Formatting.UnsignedReadsBack | libc/stdio/printf.c:154-185 | an unsigned conversion reads back in base 16, 8 or 10 as the value fetched |
| Formatting.HexLetters | libc/stdio/printf.c:176-177 | `%x` prints lower-case and `%X` upper-case letters |
| Formatting.AfterRejection | libc/stdio/printf.c:56-65 | after a rejection the rest is copied with `%%` as `%` |
| Formatting.RejectionIsFinal | libc/stdio/printf.c:59-65 | from the first conversion not understood on, the format is copied with `%%` as `%` and no argument is taken |
| Formatting.ArgumentsUsed | libc/stdio/printf.c:120-203 | exactly as many arguments as there are conversions are used, further ones are ignored |
| FormatTable.SignedPrints | libc/stdio/printf.c:120-185 | `%d` and `%i` with no modifier, hh, h, l, ll, j or t print the decimal numeral, without leading zeros, of the argument reduced modulo 2^32 to a signed number, for ll and j modulo 2^64 |
| FormatTable.UnsignedPrints | libc/stdio/printf.c:154-185 | `%o`, `%u`, `%x`, `%X` and `%p` with those modifiers or z print the numeral in base 8, 10, 16, 16 and 10, without leading zeros and in the right letter case, of the argument reduced to the unsigned type |
| FormatTable.CharacterPrints | libc/stdio/printf.c:188-193 | `%c` prints the low byte of its argument |
| FormatTable.TextPrints | libc/stdio/printf.c:194-199 | `%s` prints its text |
| FormatTable.OthersRejected | libc/stdio/printf.c:56-65 | any other character behind any modifier is printed as it stands and ends interpretation |
| FormatTable.LiteralPrints | libc/stdio/printf.c:40-57 | any character but a percent sign is copied, and two percent signs print one |
| FormatTable.CountedCharacters | libc/stdio/printf.c:44-51 | what is counted is all that is printed except what conversions print |
| Formatting.PairedPrints | libc/stdio/printf.c:40-57 | a format whose percent signs are paired prints itself unescaped |
| Formatting.EscapedPrints | libc/stdio/printf.c:40-57 | printing a text with its percent signs doubled prints the text |
| Digits.ConvertInteger | libc/stdio/printf.c:12-23 | writes the digits of the value, at most 22, and nothing behind them |
| Digits.CountDigits | libc/stdio/printf.c:15-18 | the counting loop counts the digits |
| Digits.FillDigits | libc/stdio/printf.c:19-21 | the filling loop writes the last digits from the right and nothing else |
| Digits.DigitsDecode | libc/stdio/printf.c:12-23 | the digits read back as the number |
| Digits.DigitsMinimal | libc/stdio/printf.c:15-18 | no digit string of the same value is shorter |
| Digits.BufferSuffices | libc/stdio/printf.c:183-184 | a 64-bit number has at most 22 digits in base 8, 10 or 16, within the 24-byte buffer |
| LogNumbers.PrintDec | kernel/kernel/ui/log.c:25-50 | writes padding zeros and then the last digits of the value in the places settled on, and nothing else; the text stands for the value |
| LogNumbers.PrintHex | kernel/kernel/ui/log.c:55-79 | writes padding zeros and then the digits of the value, and nothing else; the text stands for the value |
| LogNumbers.HexPad | kernel/kernel/ui/log.c:56-58 | padding goes to eight places when no width is given, to the width otherwise, and none when the cast makes it negative |
| LogNumbers.DecWidthLoop | kernel/kernel/ui/log.c:26-32 | the width loop ends at the first wrapped bound not below the value |
| LogNumbers.HexWidthLoop | kernel/kernel/ui/log.c:60-66 | the width loop ends at the minimal number of digits |
| LogNumbers.HexDigits | kernel/kernel/ui/log.c:74-78 | the shift loop writes the same digits from the left |
| LogNumbers.PadZeros | kernel/kernel/ui/log.c:34-39 | the padding loop writes zeros only |
| LogNumbers.NinesReachMax | kernel/kernel/ui/log.c:28-32 | the wrapped bound reaches its maximum after 32 steps, so the loop ends |
| LogNumbers.DecWidth | kernel/kernel/ui/log.c:26-32 | between 1 and 32 places, the first bound not below the value |
| LogNumbers.DecWidthSuffices | kernel/kernel/ui/log.c:26-32 | the places settled on hold the whole value |
| LogNumbers.DecWidthMinimal | kernel/kernel/ui/log.c:26-32 | the digit count is minimal if and only if the value is at most 1410065407 |
| LogNumbers.ShownDecodes | kernel/kernel/ui/log.c:34-49 | whatever the padding, the text stands for the value |
| LogNumbers.DigitCharacters | kernel/kernel/ui/log.c:45-45 | the characters written are the ones for the digits |
| Tokenizer.Tokenize | libc/string/strtok.c:4-32 | calling until null ends and yields the starts of all segments in order; the buffer changes only to a terminator behind each segment |
| Tokenizer.TokensRead | libc/string/strtok.c:19-31 | each token reads as its segment of the original text, and only delimiters were overwritten, by terminators |
| Tokenizer.SegmentsAreMaximal | libc/string/strtok.c:12-29 | the segments are exactly the maximal delimiter-free stretches |
| Tokenizer.SegmentsInOrder | libc/string/strtok.c:12-29 | the segments are in order and apart |
| Tokenizer.StrtokR | libc/string/strtok.c:4-32 | one call returns the next segment, terminates it and saves the position behind it, or returns null |
| Tokenizer.ExhaustedStaysExhausted | libc/string/strtok.c:13-17 | after null every call with the same delimiters returns null and changes nothing |
| Tokenizer.Strspn | libc/string/strspn.c:3-29 | the length of the leading delimiters |
| Tokenizer.Strpbrk | libc/string/strpbrk.c:3-18 | the first delimiter, or null |
| Tokenizer.Lfind | libc/stdlib/find.c:4-13 | the first occurrence, where there is one |
| Terminal.Screen.Write | kernel/kernel/ui/tty.c:83-87 | for every text without backspace at column 0 the cursor stays on the screen and the buffer shows the last 25 rows of the unbounded document |
| Terminal.Screen.PutChar | kernel/kernel/ui/tty.c:60-81 | one character moves screen and document alike; an ordinary one is in the cell that was at the cursor |
| Terminal.Screen.Scroll | kernel/kernel/ui/tty.c:41-49 | every row moves up, the last becomes blank in the colour in force |
| Terminal.Screen.TerminalNewline | kernel/kernel/ui/tty.c:51-58 | a new line, with a scroll at the bottom, shows the document one row on |
| Terminal.Screen.PutEntryAt | kernel/kernel/ui/tty.c:35-39 | changes the one cell that the coordinates name |
| Terminal.Screen.PutEntry | kernel/kernel/ui/tty.c:77-78 | the character goes to the cell of the document at the cursor, which moves on |
| Terminal.Screen.SetColor | kernel/kernel/ui/tty.c:30-33 | changes the colour in force and no cell |
| Terminal.Screen.constructor | kernel/kernel/ui/tty.c:14-28 | all cells blank in light grey on black, cursor at the origin |
| Terminal.StepMeaning | kernel/kernel/ui/tty.c:51-81 | newline, carriage return, backspace, a character within a row and one behind the last column: the cell each writes, where it leaves the cursor, and that no other cell changes |
| Terminal.RunConcat | kernel/kernel/ui/tty.c:83-87 | writing two texts is writing them one after the other, one character being one step |
| Terminal.PlainRow | kernel/kernel/ui/tty.c:83-87 | a text that fits in the rest of its row stands there afterwards, and nothing else changes |
| Terminal.SafeExactly | kernel/kernel/ui/tty.c:60-87 | a text keeps the cursor on the screen if and only if it meets no backspace at column 0 |
| Terminal.CursorStays | kernel/kernel/ui/tty.c:60-81 | one character keeps the cursor and the cell it writes on the screen if and only if it is no backspace at column 0 |
| Terminal.BackspaceAtOrigin | kernel/kernel/ui/tty.c:66-72 | a backspace at the origin writes cell 2^32 - 1 and leaves the cursor at that column |
| Terminal.HistoryKept | kernel/kernel/ui/tty.c:41-58 | rows above the cursor never change again, on the screen or scrolled away |
| Terminal.ShowsScrolled | kernel/kernel/ui/tty.c:41-49 | scrolling shows the window one row further down |
| Terminal.EntryParts | kernel/include/kernel/vga.h:31-36 | a cell holds the character and its colour, the colour being lost for characters above 127 |

## Left out

- Allocator.Liballoc.Malloc: requires the sum of size and header not to wrap; above it no tag holds the request (`SettledHolds`) and the split corrupts a header (`WrappedSplit`).
- Allocator.Liballoc.SettleTag: the same bound on the size.
- AllocatorSpec.Malloc: the same bound on the size.
- AllocatorSpec.Settle: the same bound on the size.
- Allocator.Liballoc.Free: takes null or a block in use, as C demands; the magic test for other pointers is modelled but never taken.
- Allocator.Liballoc.Realloc: when the allocation fails, only states in which no tag lies in the first bytes of memory that the copy to null overwrites.
- Allocator.Liballoc.Move: the same condition when the allocation fails.
- HeapSession.Session.Run: skips a request that C forbids its callers, a provider answer that overlaps what is granted, a wrapped size, and a refused `realloc` whose copy to null could reach a granted region.
- FrameBitmap.FrameAllocator.FrameAlloc: what is read outside the bitmap, and hence what a failed search returns, is not modelled.
- Paging.AddressSpace.PageMap: frame 0 in use, as the boot loop leaves it, since its address reads as null; flags below 0x1000 only, since larger ones overwrite the frame address; before paging is on only, since the fill afterwards passes a pointer as its length; the directory is named rather than read from cr3; a free frame for a missing table.
- Paging.AddressSpace.PagingInitialize: starts from an all-free bitmap with enough frames for directory and tables.
- Formatting.Printf: formats whose conversions have an argument of their kind, as C demands.
- Terminal.Screen.PutEntryAt: coordinates whose cell is in the buffer; others write elsewhere in memory.
- `heap.c`, the page provider: its documented contract is assumed (fresh, disjoint regions inside the address space).
- `calloc`: does not check for null or overflow before clearing.
- `vasprintf` and `log_print`: dispatch over the number printing modelled here.
- Lists and trees of `array.c`, ext2, initrd and vfs, `strcmp`, `strcpy` and the remaining memory functions: easy or not meeting their natural specification.
- Locks and interrupts: calls are atomic. Devices, TLB flushes, cursor registers and descriptor tables: hardware effects.
