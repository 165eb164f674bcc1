# The ASAN allocators of `small`, modelled in Dafny

`small` is a family of memory allocators: region, lsregion, obuf, the small-object allocator, mempool, slab cache and slab arena. In an AddressSanitizer build, each allocator is replaced by a simpler one. That version hands out every allocation through `malloc`, wrapped so that ASAN can catch out-of-bounds access and misaligned access.

This project models that ASAN build. It has two parts:

- the wrapper arithmetic in `util.h`/`util.c`: alignment, power-of-two rounding, the wrapper block layout, the `alloc_offset` header field, the magic bytes that guard the area ASAN cannot poison, and `small_asan_alloc`;
- every ASAN allocator built on that arithmetic.

Each file below is one Dafny module:

| file | module | models |
|---|---|---|
| `small_util.dfy` | `SmallUtil` | `small_align`, `small_align_down`, `small_round`, `small_lb` |
| `memory.dfy` | `Memory` | bytes, little-endian integers, `memcpy`/`memcmp` on a block, `small_magic` |
| `wrapper.dfy` | `Wrapper` | `struct small_wrapper` and the `small_wrapper_*` functions |
| `asan_alloc.dfy` | `AsanAlloc` | `small_asan_alloc` |
| `quota.dfy` | `Quota` | the lease counter the small allocator draws on |
| `region.dfy` | `Region` | `region_asan.c` |
| `lsregion.dfy` | `LsRegion` | `lsregion_asan.c` |
| `obuf.dfy` | `Obuf` | `obuf_asan.h`, `obuf_asan.c` |
| `small_alloc.dfy` | `SmallAlloc` | `small_asan.c` |
| `mempool.dfy` | `Mempool` | `mempool_asan.h`, `mempool_asan.c` |
| `slab_cache.dfy` | `SlabCache` | `slab_cache_asan.h` |
| `slab_arena.dfy` | `SlabArena` | `slab_arena_asan.h` |

The model follows the form of the source:

- Pure arithmetic becomes functions with named results and lemmas.
- The byte writes of the wrapper and of `small_asan_alloc` are methods on an `array<byte>`. They are proved against a function that gives the block's new contents.
- Each allocator is a class. Its linked list of live allocations is a `seq` field, and its methods carry `modifies` clauses. The obuf keeps its two arrays, the iovec vector and the capacity table.
- Loops in the source remain loops:
  - the record walks of `region_truncate` and `region_join`;
  - the capacity doubling of `obuf_prepare_buf`;
  - the two release loops of `obuf_rollback_to_svp`;
  - the destroy walks.

Addresses are natural numbers. The source gets its blocks from `small_xmalloc`; in the model each block's address is a method parameter.

## Model

| member | source | states |
|---|---|---|
| SmallUtil.AlignDown | include/small/util.h:139-144 | the result is a multiple of the power-of-two alignment, is at most the value, and is less than one alignment below it |
| SmallUtil.AlignDownIsGreatest | include/small/util.h:135-144 | no multiple of the alignment that is at most the value lies above `small_align_down` |
| SmallUtil.Align | include/small/util.h:121-133 | under the asserted bound `size <= SIZE_MAX - alignment`, the result is a multiple of the alignment, lies in `[size, size + alignment)` and fits a `size_t` |
| SmallUtil.AlignIsLeast | include/small/util.h:121-133 | `small_align` is the least multiple of the alignment that is at least `size` |
| SmallUtil.AlignAligned | include/small/util.h:121-133 | an already aligned size is returned unchanged |
| SmallUtil.BitLength | include/small/util.h:155-156 | `64 - __builtin_clzl(x)` is the number of significant bits: 0 exactly for 0, otherwise `2^(r-1) <= x < 2^r` |
| SmallUtil.RoundIsLeastPow2 | include/small/util.h:146-157 | for `2 <= size <= SIZE_MAX/2 + 1`, `small_round` is a power of two, is at least `size`, and is at most every power of two that is at least `size` |
| SmallUtil.RoundSmall | include/small/util.h:150-151 | sizes 0 and 1 are returned unchanged |
| SmallUtil.Round | include/small/util.h:146-157 | `small_round`; the property it promises, the least power of two not below `size`, is stated by SmallUtil.RoundIsLeastPow2 and the identity on 0 and 1 by SmallUtil.RoundSmall |
| SmallUtil.Lb | include/small/util.h:159-166 | `small_lb` is the floor of the binary logarithm: `2^r <= size < 2^(r+1)` |
| Memory.LittleEndianRoundTrip | small/util.c:70-74 | a value below `256^n` stored as `n` little-endian bytes reads back as itself |
| Memory.MagicIsSmallMagic | small/util.c:34 | the eight magic bytes, read as a little-endian 64-bit integer, are `small_magic` |
| Memory.Store | small/util.c:73-85 | a `memcpy` into a block changes exactly the bytes it covers, to the bytes given |
| Memory.StoreKeeps | small/util.c:73-85 | a `memcpy` leaves any range disjoint from it unchanged |
| Memory.Copy | small/util.c:73-85 | the byte loop leaves the array equal to `Store` of its old contents |
| Memory.Equal | include/small/util.h:312-313 | `memcmp(...) == 0` holds exactly when the block's bytes equal the given bytes |
| Wrapper.Payload | include/small/util.h:255-267 | the payload is aligned on `A` but not on `2A`, lies after the header room, and ends inside the wrapper of `small_wrapper_size` bytes |
| Wrapper.Header | include/small/util.h:231-238 | the header is 8-aligned, ends at or before the payload, and lies less than 8 bytes before it |
| Wrapper.WrapperSize | include/small/util.h:240-249 | `small_wrapper_size`: the header, `2 * A - 1` bytes of padding and the payload; Wrapper.Payload proves that the payload placed in a block of this size ends inside it |
| Wrapper.MagicBegin | include/small/util.h:383-385 | the magic area starts at the 8-aligned address at or below the payload, less than 8 bytes before it |
| Wrapper.Layout | include/small/util.h:275-286 | the three pointers of `small_wrapper_alloc`: `ptr <= header`, the header aligned and before the payload, the payload alignment rule, and the payload inside the block |
| Wrapper.StoresDisjoint | include/small/util.h:381-382 | in a well-formed wrapper the `alloc_offset` field ends before the magic area, and the offset fits its 8 bytes |
| Wrapper.Alloc | include/small/util.h:275-294 | returns `Layout` of the block; the block then holds `header - ptr` in the header's `alloc_offset` and is otherwise unchanged |
| Wrapper.Poison | include/small/util.h:378-391 | writes the magic bytes from `MagicBegin` up to the payload and changes nothing else |
| Wrapper.Unpoison | include/small/util.h:302-314 | the magic check passes exactly when the bytes before the payload still hold the magic |
| Wrapper.OffsetImageReadsBack | include/small/util.h:334-344 | the `alloc_offset` written at allocation reads back as `header - ptr` |
| Wrapper.FromHeader | include/small/util.h:327-344 | `small_wrapper_from_header`: the block start is the header minus `alloc_offset`; Wrapper.RoundTrip proves it recovers the allocated wrapper |
| Wrapper.FromPayload | include/small/util.h:346-366 | `small_wrapper_from_payload`: fails the magic check or recovers the wrapper from the header below the payload; Wrapper.RoundTrip proves it recovers the allocated wrapper and Wrapper.MagicCheckDetects that a damaged magic byte is caught |
| Wrapper.MagicImageKeepsOffset | include/small/util.h:378-391 | poisoning leaves `alloc_offset` intact and leaves the magic check passing |
| Wrapper.RoundTrip | include/small/util.h:334-366 | after alloc and poison, `small_wrapper_from_header` and `small_wrapper_from_payload` both recover exactly the wrapper that was allocated |
| Wrapper.MagicCheckDetects | include/small/util.h:302-314 | changing any one magic byte makes `small_wrapper_from_payload` fail its magic check, while `alloc_offset` is unaffected |
| AsanAlloc.Layout | small/util.c:55-72 | a layout exists when the header fits (`headerSize + 2A + 8 <= UINT16_MAX`) and none exists when it cannot; a layout has the `alloc_size` bytes, the header one `SMALL_ASAN_HEADER_ALIGNMENT` in, the payload aligned on `A` and not `2A` inside the block, a 16-bit offset, and the magic area at or below the payload |
| AsanAlloc.Image | small/util.c:73-85 | the block after the writes: the offset at the block start, the offset again just before the magic, the magic up to the payload, and every other byte unchanged |
| AsanAlloc.Alloc | small/util.c:36-88 | returns the header exactly when the layout exists, and then leaves the block as `Image`; when the offset does not fit, nothing is written |
| AsanAlloc.WriteImage | small/util.c:73-85 | the three `memcpy`s turn the block into `Image` of its old contents |
| AsanAlloc.ImageReadsBack | small/util.c:68-74 | header plus the leading offset is the payload, and payload minus the offset before the magic is the header |
| AsanAlloc.OffsetRoundTrip | small/util.c:70-74 | a `uint16_t` offset stored in two bytes reads back unchanged |
| Quota.Quota.Lease | small/small_asan.c:69-70 | a lease succeeds exactly when it stays within the limit; it then adds `n`, otherwise changes nothing |
| Quota.Quota.EndLease | small/small_asan.c:94 | ending a lease returns exactly `n` |
| Region.CutCountStep | small/region_asan.c:125-135 | one iteration of the truncate walk: stop on a used record once nothing is left to cut, fail on a record straddling the cut, otherwise drop the record and cut less |
| Region.CutCountBoundary | small/region_asan.c:119-141 | truncation succeeds exactly when the cut lands on a record boundary; then the `k` newest records hold exactly the cut bytes, and record `k` is not empty |
| Region.TruncateAll | small/region_asan.c:119-141 | truncating to 0 drops every record |
| Region.TruncateNothing | small/region_asan.c:126-128 | truncating to the current size drops only the leading empty records |
| Region.TruncateKeepsPrefix | small/region_asan.c:119-143 | after truncation the remaining records hold the oldest `used` bytes of the region, in order |
| Region.TruncateUsed | small/region_asan.c:121-142 | the remaining records' `used` fields add up to the new `used` |
| Region.FindCut | small/region_asan.c:125-141 | the record walk computes how many records truncation drops, or that the cut falls inside a record |
| Region.Chunk | small/region_asan.c:164-166 | `copy_size` is `min(alloc->used, offset)` |
| Region.JoinStep | small/region_asan.c:159-170 | each iteration places the last `copy_size` bytes of its record at `[offset - copy_size, offset)` of the joined bytes |
| Region.JoinNotExhausted | small/region_asan.c:159-170 | while bytes remain to join there is a record left, because `size <= used` |
| Region.JoinBytes | small/region_asan.c:148-173 | the join loop yields the newest `size` bytes of the region, in allocation order |
| Region.JoinHead | small/region_asan.c:158-171 | the joined bytes start with the tail of the oldest record the join reaches |
| Region.JoinAsWrittenHead | small/region_asan.c:158-171 | as written, the joined bytes start with the head of that record |
| Region.JoinAsWrittenDiffers | small/region_asan.c:164-167 | as written, the join is wrong whenever the head and the tail of the straddling record differ |
| Region.JoinAsWrittenExample | small/region_asan.c:164-167 | records "1 2 3 4" then "5 6": joining 3 bytes yields "1 5 6" where "4 5 6" is meant |
| Region.JoinAsWritten | small/region_asan.c:158-171 | the bytes the join loop as written copies: the first `copy_size` bytes of each record it reaches; Region.JoinAsWrittenHead and Region.JoinAsWrittenDiffers state how it departs from the newest bytes |
| Region.Region.constructor | small/region_asan.c:31 | `region_create` is in `region.h`, which is not part of this model; a new region has no records, no size and no reservation, and is valid |
| Region.Region.Reserve | small/region_asan.c:54-67 | a reservation is at least a page; it becomes a new, unused newest record, and `used` does not change |
| Region.Region.Alloc | small/region_asan.c:74-112 | with a reservation, the newest record takes `size` bytes and the reservation ends; without one, a new full record is added; `used` grows by `size` |
| Region.Region.Truncate | small/region_asan.c:117-146 | on a record boundary, drops the newest records so that exactly `u` bytes remain and clears the reservation; elsewhere, changes nothing |
| Region.Region.Join | small/region_asan.c:148-173 | adds a new record holding the newest `size` bytes of the region, and grows `used` by `size` |
| LsRegion.GcPrefix | small/lsregion_asan.c:62-64 | the walk frees the oldest records with `id <= min_id` and stops at the first newer one |
| LsRegion.GcIdempotent | small/lsregion_asan.c:57-75 | a second `lsregion_gc` with the same `min_id` frees nothing |
| LsRegion.GcLeavesNewer | small/lsregion_asan.c:57-75 | with ids in allocation order, every record left is newer than `min_id` |
| LsRegion.AllocKeepsSorted | small/lsregion_asan.c:33-52 | appending an allocation whose id is not below the last keeps the ids in order |
| LsRegion.LsRegion.constructor | small/lsregion_asan.c:31 | `lsregion_create` is in `lsregion.h`, which is not part of this model; a new lsregion has no allocations and `used` is 0 |
| LsRegion.LsRegion.Alloc | small/lsregion_asan.c:33-52 | appends the allocation at the tail and grows `used` by its size |
| LsRegion.LsRegion.Gc | small/lsregion_asan.c:57-75 | drops exactly the `GcPrefix` records and takes their sizes off `used` |
| Obuf.Doubled | small/obuf_asan.c:56-58 | the doubled capacity is at least the request and at least the start |
| Obuf.DoubledIsLeast | small/obuf_asan.c:56-58 | the capacity is the start times a power of two, and either the start itself or less than twice the request |
| Obuf.ShiftLeft | small/obuf_asan.c:56 | `x << k` is `x * 2^k` |
| Obuf.GrowCapacity | small/obuf_asan.c:56-58 | the doubling loop computes `Doubled(start_capacity << (gpos + 1), size)` |
| Obuf.RollbackStart | small/obuf_asan.c:139-142 | the rollback clears from the savepoint's slot or the one after it, and from the savepoint's own slot exactly for the empty savepoint (position 0, length 0) of a buffer whose slot 0 holds a chunk |
| Obuf.ReleasedIsCleared | small/obuf_asan.c:143-160 | with the wrapper loop run through `buf->pos`, every slot the rollback clears has its block freed, and no other slot does |
| Obuf.ReleasedAsWritten | small/obuf_asan.c:143-159 | the slots the two release loops free as written; Obuf.ReleasedAsWrittenLeaks and Obuf.ReleasedAsWrittenPastChecked state where it falls short of the cleared slots |
| Obuf.ReleasedAsWrittenLeaks | small/obuf_asan.c:143-152 | as written, when the last slot is a wrapper chunk it is cleared but never freed |
| Obuf.ReleasedAsWrittenPastChecked | small/obuf_asan.c:143-159 | as written, a rollback from the geometric part frees every cleared slot |
| Obuf.ResetAfterOneAllocLeaks | small/obuf_asan.c:176-182 | as written, `obuf_reset` after a single allocation clears slot 0 and frees nothing |
| Obuf.InvOpenNext | small/obuf_asan.c:71-79 | opening a chunk in the next slot keeps the buffer invariant |
| Obuf.InvOpenFirst | small/obuf_asan.c:76-79 | opening the first chunk of an empty buffer in slot 0 keeps the invariant |
| Obuf.InvCommit | small/obuf_asan.c:100-126 | adding `size` bytes to the last chunk keeps the invariant, with `used` grown by `size` and no reservation |
| Obuf.InvRollback | small/obuf_asan.c:128-165 | a rollback to a savepoint of the buffer restores the invariant at the savepoint's position, size and length |
| Obuf.RollbackToCurrent | small/obuf_asan.c:128-165 | rolling back to a savepoint of the current state changes no slot |
| Obuf.Obuf.constructor | small/obuf_asan.c:33-46 | a new buffer has all slots and capacities zero, and no chunk, size or reservation |
| Obuf.Obuf.Size | include/small/obuf_asan.h:129-133 | `obuf_size` is the total length of the chunks |
| Obuf.Obuf.Capacity | include/small/obuf_asan.h:135-139 | `obuf_capacity` equals `obuf_size` |
| Obuf.Obuf.IovCnt | include/small/obuf_asan.h:180-184 | `obuf_iovcnt` counts exactly the slots holding a chunk, which are the leading ones |
| Obuf.Obuf.CreateSvp | include/small/obuf_asan.h:147-155 | the savepoint records the position, the last chunk's length and the size |
| Obuf.Obuf.SvpToPtr | include/small/obuf_asan.h:157-161 | for the current savepoint, the address is where the next byte goes |
| Obuf.Prepare | small/obuf_asan.c:48-83 | the state `obuf_prepare_buf` leaves: below the geometric part a wrapper chunk of length 0 in the next free slot; in the geometric part the same state when the request fits, otherwise the next slot with `block` and the doubled capacity; slots before the new position are unchanged |
| Obuf.Obuf.PrepareBuf | small/obuf_asan.c:48-83 | position, slots and capacities become `Prepare` of the old state; the new slot joins the live blocks, the last chunk has a base and, in the geometric part, room for the request; it returns the end of the last chunk |
| Obuf.Obuf.OpenGeometric | small/obuf_asan.c:54-65 | opens the next slot with a block of the doubled capacity, recorded in the capacity table |
| Obuf.Obuf.OpenWrapper | small/obuf_asan.c:71-82 | puts a wrapper payload in slot `pos`, first moving past a slot that is already taken |
| Obuf.Obuf.Reserve | small/obuf_asan.c:85-98 | position, slots and capacities become `Prepare` of the old state for the request or a page, whichever is larger; that much is reserved, `used` is unchanged, and the address is the end of the last chunk |
| Obuf.Obuf.Commit | small/obuf_asan.c:106-124 | the last chunk and `used` both grow by `size`, the reservation ends, and the returned address starts the new bytes |
| Obuf.Obuf.AllocReserved | small/obuf_asan.c:100-114 | takes `size` bytes of the reservation from the last chunk, and ends the reservation |
| Obuf.Obuf.Alloc | small/obuf_asan.c:116-126 | with a reservation, the last chunk grows by `size` and nothing else moves; without one, the state is `Prepare` of the old state with the new last chunk grown by `size`; `used` grows by `size`, and the address starts the new bytes |
| Obuf.Obuf.Dup | include/small/obuf_asan.h:172-178 | returns `size`; the new position, slots and capacities are those of `obuf_alloc` for `size`, and `used` grows by it |
| Obuf.Obuf.ReserveCb | include/small/obuf_asan.h:186-193 | reports back the size actually reserved, the request or a page, whichever is larger; the new state is `Prepare` of the old for that size, and the address is the end of the last chunk |
| Obuf.Obuf.ReleaseWrappers | small/obuf_asan.c:146-152 | frees the blocks of exactly the given range of slots |
| Obuf.Obuf.ReleaseGeometric | small/obuf_asan.c:153-159 | frees the geometric blocks from `start` through `buf->pos`, and zeroes their capacities |
| Obuf.Obuf.ClearSlots | small/obuf_asan.c:160 | empties the slots from `start` through `buf->pos` |
| Obuf.Obuf.ClearFrom | small/obuf_asan.c:143-160 | frees and empties exactly the slots from `start` through `buf->pos` |
| Obuf.Obuf.Rollback | small/obuf_asan.c:128-165 | returns to the savepoint: position, size and last length restored, later slots emptied and their blocks freed, and no reservation |
| Obuf.Obuf.Reset | small/obuf_asan.c:176-182 | empties the buffer and frees every block |
| Obuf.Obuf.Destroy | small/obuf_asan.c:167-174 | frees every block, and the size becomes 0 |
| SmallAlloc.Lookup | small/small_asan.c:90-93 | finds the recorded size of a live object; `None` exactly when the pointer is not live |
| SmallAlloc.LookupDistinct | small/small_asan.c:90-93 | with distinct payloads, the lookup returns the object's own size |
| SmallAlloc.Remove | small/small_asan.c:96-97 | unlinking a live object removes one object and its size from the total; unlinking a pointer that is not live changes nothing |
| SmallAlloc.RemovePayloads | small/small_asan.c:96 | unlinking removes exactly that payload from the live set |
| SmallAlloc.RemoveDistinct | small/small_asan.c:96 | unlinking keeps the payloads distinct |
| SmallAlloc.SmfreeCheck | small/small_asan.c:86-93 | a free passes only for a live object of that size, and it is refused as an id mismatch exactly when the pointer is not live |
| SmallAlloc.SmfreeCheckExact | small/small_asan.c:86-93 | with distinct payloads, a free passes exactly when that object with that size is live |
| SmallAlloc.AllocFreeRestores | small/small_asan.c:66-101 | freeing the object just allocated, with its size, passes the check and restores the previous objects |
| SmallAlloc.ForeignFreeAsWritten | small/small_asan.c:86-98 | as written, another allocator's object passes the size check, and freeing it from an empty allocator wraps `used` to `SIZE_MAX - 15` |
| SmallAlloc.SmfreeCheckAsWritten | small/small_asan.c:86-93 | the only check `smfree` makes as written, on the recorded size; SmallAlloc.ForeignFreeAsWritten shows that it lets a foreign object through |
| SmallAlloc.SmallAlloc.constructor | small/small_asan.c:33-46 | a new allocator has no objects, `used` 0 and `objcount` 0 |
| SmallAlloc.SmallAlloc.PayloadIn | small/small_asan.c:71-73 | the payload of a new object lies past its header |
| SmallAlloc.SmallAlloc.Smalloc | small/small_asan.c:66-84 | returns NULL, changing nothing, exactly when the quota refuses; otherwise links the new object first and grows `used`, `objcount` and the lease |
| SmallAlloc.SmallAlloc.Smfree | small/small_asan.c:86-101 | refuses a foreign pointer or a wrong size, changing nothing; otherwise unlinks the object and takes its size off `used`, `objcount` and the lease |
| SmallAlloc.SmallAlloc.Destroy | small/small_asan.c:48-64 | ends the lease of every object and empties the list, leaving `used` and `objcount` as they were |
| Mempool.LowBit | small/mempool_asan.c:49 | `1 << (ffs(x) - 1)` is the largest power of two dividing `x`: it divides `x`, and the quotient is odd |
| Mempool.PoolAlignment | small/mempool_asan.c:48-51 | the alignment `mempool_create` stores; Mempool.PoolAlignmentIsLargest proves it is the largest power of two dividing the object size, capped |
| Mempool.PoolAlignmentIsLargest | small/mempool_asan.c:48-51 | the pool's alignment is a power of two, at most 4096, that divides `objsize`; below 4096 it is the largest such |
| Mempool.LinkOverwritesOffsetAsWritten | include/small/mempool_asan.h:68-72 | as written, the header is only the list link, so linking the object overwrites `alloc_offset` with the link's first pointer |
| Mempool.FirstLinkMisplacesBlock | small/mempool_asan.c:74-80 | as written, after linking, `alloc_offset` reads back as the list head rather than `header - ptr`, so `mempool_free` finds the wrong block |
| Mempool.LinkKeepsOffset | include/small/util.h:213-217 | with `struct small_header` as the first member, the link sits after `alloc_offset` and leaves it intact |
| Mempool.Remove | small/mempool_asan.c:96 | unlinking a live object removes one entry; unlinking a pointer that is not live changes nothing; nothing is added |
| Mempool.RemoveExact | small/mempool_asan.c:96 | with distinct entries, unlinking keeps them distinct and removes exactly that pointer |
| Mempool.AllocFreeRestores | small/mempool_asan.c:71-100 | freeing the object just allocated restores the previous list |
| Mempool.Mempool.constructor | small/mempool_asan.c:38-52 | a new pool is initialized, is empty, and has a power-of-two alignment of at most 4096 that divides `objsize` |
| Mempool.Mempool.IsInitialized | include/small/mempool_asan.h:87-91 | `mempool_is_initialized`: the object size is not 0; Mempool.Mempool.constructor ensures every new pool is initialized |
| Mempool.Mempool.Count | include/small/mempool_asan.h:93-97 | `mempool_count` is the number of live objects |
| Mempool.Mempool.Used | include/small/mempool_asan.h:99-103 | `mempool_used` is `objsize` times the number of live objects |
| Mempool.Mempool.Stats | include/small/mempool_asan.h:105-114 | the stats report `objsize`, the count, used and total both equal to `mempool_used`, and no slabs |
| Mempool.Mempool.PayloadIn | small/mempool_asan.c:74-76 | an object's payload is aligned on the pool's alignment but not on twice it |
| Mempool.Mempool.Alloc | small/mempool_asan.c:71-85 | links the new payload first, and `objcount` grows by 1 |
| Mempool.Mempool.Free | small/mempool_asan.c:87-100 | unlinks that object and frees its block, and `objcount` drops by 1 |
| Mempool.Mempool.Destroy | small/mempool_asan.c:57-69 | frees every block and empties the list, leaving `objcount` as it was |
| SlabCache.MetaSize | include/small/slab_cache_asan.h:93-94 | the slab header room is `sizeof(struct slab)` rounded up to a multiple of `sizeof(intptr_t)` |
| SlabCache.RealSize | include/small/slab_cache_asan.h:89-96 | `slab_real_size`: the request plus the slab header, aligned on the page size; SlabCache.RealSizeIsLeast proves it is the least such multiple |
| SlabCache.RealSizeIsLeast | include/small/slab_cache_asan.h:89-96 | `slab_real_size` is the least page multiple that holds the request plus the header room |
| SlabCache.Remove | include/small/slab_cache_asan.h:112-113 | unlinking a slab removes one slab and its size from the total |
| SlabCache.RemoveDistinct | include/small/slab_cache_asan.h:113 | unlinking keeps addresses distinct and removes exactly that address |
| SlabCache.GetPutRestores | include/small/slab_cache_asan.h:98-115 | putting back the slab just got restores the list and the total |
| SlabCache.SlabCache.constructor | include/small/slab_cache_asan.h:72-77 | a new cache has no slabs and `used` 0 |
| SlabCache.SlabCache.Used | include/small/slab_cache_asan.h:117-121 | `slab_cache_used` is the total size of the allocated slabs |
| SlabCache.SlabCache.Get | include/small/slab_cache_asan.h:98-107 | allocates a slab of the real size, links it first, and adds its size to `used` |
| SlabCache.SlabCache.Put | include/small/slab_cache_asan.h:109-115 | unlinks the slab, takes its size off `used`, and frees it |
| SlabCache.SlabCache.Destroy | include/small/slab_cache_asan.h:79-87 | frees every slab, leaving the list and `used` as they were |
| SlabArena.Max | include/small/slab_arena_asan.h:62-63 | the larger of the requested and the minimum slab size |
| SlabArena.SlabSize | include/small/slab_arena_asan.h:49-64 | the `uint32_t` slab size `slab_arena_create` stores; SlabArena.SlabSizeIsLeastPow2 and SlabArena.SlabSizeTruncates prove what it is |
| SlabArena.SlabSizeIsLeastPow2 | include/small/slab_arena_asan.h:62-64 | for sizes up to `2^31`, the slab size is the least power of two that is at least both the request and `SLAB_MIN_SIZE` |
| SlabArena.SlabSizeTruncates | include/small/slab_arena_asan.h:49-64 | a request above `2^31` rounds to `2^32`, which the `uint32_t` field stores as 0 |
| SlabArena.SlabArena.Create | include/small/slab_arena_asan.h:54-67 | returns 0 and an arena with the given quota, the rounded slab size and `used` 0 |
| SlabArena.SlabArena.Destroy | include/small/slab_arena_asan.h:69-74 | destroys nothing: the arena is left as it was |
| SlabArena.SlabArena.Map | include/small/slab_arena_asan.h:76-80 | returns a new block of `slab_size` bytes |
| SlabArena.SlabArena.Unmap | include/small/slab_arena_asan.h:82-89 | NULL is ignored; any other slab is freed |

## Left out

- ASAN poisoning and unpoisoning (`ASAN_POISON_MEMORY_REGION` and its counterpart) are not modelled. The magic bytes written where poisoning is imprecise are modelled.
- Each block that `small_xmalloc`/`malloc` returns is a method parameter, assumed 8-aligned and non-zero. Allocation failure, which aborts, is not modelled.
- `free` of a block is tracked by ghost sets of live blocks.
- `small_getpagesize` is a method parameter.
- `IOV_MAX` is fixed at 1024, its Linux value.
- Several sizes are parameters because their defining headers are not part of this model: `SMALL_ASAN_HEADER_ALIGNMENT`, `SMALL_ASAN_ALIGNMENT`, `sizeof(struct small_object)` and `SLAB_MIN_SIZE`.
- `sizeof(struct slab)` is taken as 40, its size on a 64-bit target.
- The `quota` of `quota.h` is not part of this model. It is a counter with a limit and a leased total. The slab cache's `quota_lessor` is not modelled.
- The region's `on_alloc_cb` and `on_truncate_cb` observer callbacks are not modelled.
- The payload bytes of obuf chunks, lsregion records and pool objects are not modelled. Region records carry their bytes, because `region_join` copies them.
- `obuf_alloc_cb` is `obuf_alloc` itself.
- `slab_cache_check` and `slab_cache_set_thread` do nothing.
- `small_alloc_create`'s float `alloc_factor` is passed through unchanged, so it is not modelled.
- Every `small_assert` is modelled as the abort it performs by default: a precondition, a refusal that changes nothing, or `None`. The test-only `small_on_assert_failure` hook (include/small/util.h:74-89), under which a failed assertion returns and execution carries on, is not modelled.
- Region.Region.Truncate: it requires `u <= used`, where the source's `small_assert` aborts (small/region_asan.c:121). A cut inside a record is refused with no change, where the source's `small_assert` aborts (small/region_asan.c:133).
- Region.Region.Reserve, Region.Region.Alloc and Region.Region.Join: the source's `small_assert`s on `reserved`, `size` and `alignment` become preconditions.
- Obuf.Obuf.PrepareBuf: it requires a free slot before `IOV_MAX`, where the source's `small_assert` aborts. For a non-empty request in the geometric part it also requires a start capacity above 0; with 0, the source's doubling loop never ends.
- Obuf.Obuf.Reserve: it requires no pending reservation, where the source's `small_assert` aborts (small/obuf_asan.c:88).
- Obuf.Obuf.ReserveCb: it requires no pending reservation, inherited from `obuf_reserve`, where the source's `small_assert` aborts (small/obuf_asan.c:88).
- Obuf.Obuf.AllocReserved: it requires `size <= reserved`, where the source's `small_assert` aborts (small/obuf_asan.c:104).
- Obuf.Obuf.Alloc: with a pending reservation it requires `size <= reserved`, where the source's `small_assert` in `obuf_alloc_reserved` aborts (small/obuf_asan.c:104, reached from :120).
- Obuf.Obuf.Dup: it inherits the `size <= reserved` precondition of Obuf.Obuf.Alloc, where the source aborts (small/obuf_asan.c:104).
- Obuf.Obuf.Destroy: the `free(buf->iov)` of small/obuf_asan.c:173 is not modelled: the slot array that Obuf.Obuf.constructor allocates is never freed in the model.
- Obuf.Doubled, Obuf.ShiftLeft and Obuf.GrowCapacity compute on unbounded integers. In the source, `start_capacity << (gpos + 1)` and `capacity <<= 1` are unchecked `size_t` shifts: for a request above `SIZE_MAX / 2` the capacity wraps to 0 and the doubling loop never ends. The model has no such wrap.
- Obuf.Obuf.Rollback: it requires a savepoint that describes the buffer. Its position must be at or before the current one, its length must be within that slot's, and its size must match the chunks before it. The source asserts only `svp->pos <= buf->pos`.
- The release loops of Obuf.Obuf.Rollback follow the corrected bound; see Findings.
- Region.JoinStep, Region.JoinBytes, Region.JoinHead and Region.Region.Join follow the corrected tail copy (the last `copy_size` bytes of the record used), not the head copy of small/region_asan.c:167; see Findings.
- SmallAlloc.SmallAlloc.Smfree: a wrong size returns an error and changes nothing, where the source's `small_assert` aborts. A foreign pointer is refused the same way by the corrected check; the source makes no such check (see Findings).
- Wrapper.Unpoison checks the magic bytes. The frees in region, lsregion, mempool and small, and the wrapper frees of `obuf_rollback_to_svp`, do not re-run that check, because Wrapper.MagicCheckDetects proves it once for every wrapper.
- Mempool.Mempool.Free: it requires a live pointer. The source trusts its caller.
- Mempool.Mempool.constructor: it requires `0 < objsize`, where the source's `small_assert` aborts (small/mempool_asan.c:43).
- SlabCache.SlabCache.Put: it requires a slab of this cache. The source trusts its caller.
- SlabArena.SlabArena.Unmap: it requires NULL or a slab this arena mapped. The source trusts its caller.
- AsanAlloc.Alloc: its `None` result, like that of AsanAlloc.Layout, stands for the abort of the `payload - header <= UINT16_MAX` assertion (small/util.c:69); nothing is written in that case.
- Mempool.Mempool.Alloc uses the corrected header of 24 bytes (`struct small_header` then the link); see Findings.
- Arithmetic on unbounded integers stands in for `size_t` arithmetic. The exceptions are the `uint32_t` `slab_size`, whose truncation is modelled, and `smfree`'s wrap-around of `used`, which is modelled as written. The obuf capacity shifts are the gap noted above.
- A test of the small allocator expects the size-check message "invalid object size". The code's message reads "smfree object size check". Messages are not modelled.

## Findings

| source | as written | input that shows it | evidently intended | confidence | as-written member | corrected member |
|---|---|---|---|---|---|---|
| small/region_asan.c:164-167 | `region_join` copies the first `copy_size` bytes of the oldest record it reaches | records "1 2 3 4" then "5 6", `region_join(3)` gives "1 5 6" | copy the last `copy_size` bytes of the record used (`payload + used - copy_size`), giving "4 5 6" | high, not executed | Region.JoinAsWrittenDiffers, Region.JoinAsWrittenExample | Region.JoinBytes, Region.Region.Join |
| small/obuf_asan.c:143-152 | the wrapper release loop stops before `min(buf->pos, SMALL_OBUF_IOV_CHECKED_SIZE)` | one `obuf_alloc`, then `obuf_reset`: slot 0 is cleared and its block is never freed | release every wrapper slot through `buf->pos` (bound `min(buf->pos + 1, SMALL_OBUF_IOV_CHECKED_SIZE)`) | high, not executed | Obuf.ReleasedAsWrittenLeaks, Obuf.ResetAfterOneAllocLeaks | Obuf.ReleasedIsCleared, Obuf.Obuf.Rollback |
| small/small_asan.c:86-98 | `smfree` checks only the size recorded in the header, not that the object belongs to this allocator | an object of 16 bytes from one allocator, freed into an empty one: the check passes and `used` wraps to `SIZE_MAX - 15` | refuse a pointer that is not one of this allocator's objects ("object and allocator id mismatch", test/small_alloc.c:307) | medium, not executed | SmallAlloc.ForeignFreeAsWritten | SmallAlloc.SmfreeCheckExact, SmallAlloc.SmallAlloc.Smfree |
| include/small/mempool_asan.h:69-72 | `struct mempool_object` lacks the `struct small_header` first member, so `rlist` overlays `alloc_offset` | the first `mempool_alloc` into an empty pool: `alloc_offset` reads back as the address of the pool's list head | put `struct small_header base` first, as include/small/util.h:189 requires and `struct obuf_allocation` does | high, not executed | Mempool.LinkOverwritesOffsetAsWritten, Mempool.FirstLinkMisplacesBlock | Mempool.LinkKeepsOffset, Mempool.Mempool.Alloc |
