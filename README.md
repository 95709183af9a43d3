# A verified model of the topo-vol GPU sub-buffer allocator

This project is a Dafny model of the `glt` helper library of topo-vol. It
covers three parts:

- The GPU sub-buffer allocator of `glt/buffer_allocator.cpp`:
  - `Buffer`, one fixed-capacity GL buffer object with two ledgers of
    extents (free and used) keyed by offset;
  - `BufferAllocator`, an ordered list of `Buffer`s that grows by one
    buffer when none of them can serve a request;
  - the bookkeeping of `map_multiple` and `unmap_multiple`.
- The `uint64_t` bit tricks `next_pow2` and `is_pow2` of `glt/util.h`.
- The in-place y-flip of decoded images in `glt/util.cpp`: `swap_row`,
  and the row-swapping loops of `load_texture` and `load_texture_array`.

## Structure

| module (file) | what it holds |
|---|---|
| `Ledgers` (ledgers.dfy) | `Block`, and a `std::map<size_t, Block>` modelled as a sequence of blocks sorted by key: `Find`, `Insert` (which, like `std::map::insert`, does nothing when the key is present) and `Erase` |
| `LedgerLemmas` (ledger_lemmas.dfy) | how each ledger step affects the disjointness of extents |
| `BufferModel` (buffer_model.dfy) | the value semantics of `Buffer`: `Init`, `Pad`, `FirstFit`, `Carve`, `Alloc`, `Grow`, `Realloc`, `Free`, `Coalesce` |
| `Buffers` (buffers.dfy) | `class Buffer`, whose methods update `freeb`/`used` step by step and are proved to reach exactly the `BufferModel` state |
| `BufferProperties`, `FreeProperties`, `ReallocProperties` | what `alloc`, `free` and `realloc` promise, proved about `BufferModel` |
| `AllocatorModel` (allocator_model.dfy) | the value semantics of `BufferAllocator` |
| `Allocators` (allocator.dfy) | `class BufferAllocator`, owning `Buffer` objects, proved against `AllocatorModel` |
| `AllocatorProperties` (allocator_properties.dfy) | what `BufferAllocator` promises |
| `Scenarios` (scenarios.dfy) | concrete runs: worked examples, and a run in which `free` loses bytes |
| `Mapping` (mapping.dfy) | `map_multiple` and `unmap_multiple` |
| `Bits` (bits.dfy) | `next_pow2` and `is_pow2` on `bv64` |
| `ImageFlip` (image_flip.dfy) | `swap_row` and the flip loop over an `array<byte>` |

How the model stands in for the GL calls:

- GL buffer names come from a counter that starts at 1. This stands for
  `glGenBuffers`, which hands out fresh non-zero names. Name 0 belongs to
  the default-constructed `SubBuffer`.
- The three alignments that `glGetIntegerv` reports become constructor
  parameters.
- Every `glCopyBufferSubData` is recorded as a `Copy` in a ghost log.
- In `map_multiple`, the address that `glMapBufferRange` returns for
  buffer `id` is the parameter `mapBase(id)`.

A few behaviours of the code are easy to miss; the model follows the code:

- **Free and used extents do not always partition the buffer.**
  - `alloc` can leave an empty trailing free extent whose key is the
    offset of a later lease.
  - When that lease is later freed, `std::map::insert` finds its key
    already present and drops the released bytes.
  - `Scenarios.FreeLosesBytes` shows such a run. Every state before it
    satisfies the ledger invariant (`Scenarios.LostBytesRun`), and
    afterwards byte 95 is in neither ledger.
  - So the proved invariant is order, containment in the buffer, and
    disjointness (no aliasing). Coverage of `[0, capacity)` is not part
    of it.
- **`Buffer::realloc` relocates inside its own buffer before it fails.**
  When in-place growth is impossible, it allocates elsewhere in the same
  buffer, copies, and frees the old extent. For a sub-buffer of its own
  it fails only when that allocation fails too.
- **`Buffer::free` of a foreign or unknown sub-buffer is an assertion in
  the code**, so it is the precondition `BufferModel.FreeReady`.
- **The mapping range of `map_multiple` is not always the union extent.**
  - The code computes each buffer's range size from whichever region it
    judged to come second.
  - The range covers every region whenever the regions come in ascending
    offset order (`Mapping.AscendingCovers`). Otherwise it can shrink
    (`Mapping.RangeShrinks`).
- **Only `BufferAllocator::free` zeroes the caller's size.**
  `Buffer::free` leaves it unchanged.

## Model

| member | source | states |
|---|---|---|
| `Ledgers.FindNone` | topo-volume/glt/buffer_allocator.cpp:157-159 | `std::map::find` fails exactly when no entry has the key |
| `Ledgers.FindAt` | topo-volume/glt/buffer_allocator.cpp:186 | in an ordered ledger, `find` of an entry's key returns that entry's position |
| `Ledgers.InsertFacts` | topo-volume/glt/buffer_allocator.cpp:137-145 | `std::map::insert` leaves the ledger unchanged when the key is present, otherwise adds exactly the new block; no old entry is lost and the result is never empty |
| `Ledgers.EraseFacts` | topo-volume/glt/buffer_allocator.cpp:135 | erasing an iterator removes exactly that entry and keeps the others in order |
| `BufferModel.Init` | topo-volume/glt/buffer_allocator.cpp:105 | a new buffer has the single free block `{0, size}` and no used block, and satisfies the ledger invariant |
| `Buffers.Buffer.constructor` | topo-volume/glt/buffer_allocator.cpp:93-106 | the constructed object holds exactly the state `BufferModel.Init` describes |
| `BufferModel.Pad` | topo-volume/glt/buffer_allocator.cpp:125-126 | the pad is below `align`, makes the offset aligned, and is 0 exactly when the offset is already aligned |
| `BufferModel.FirstFit` | topo-volume/glt/buffer_allocator.cpp:123-127 | the chosen free block fits `sz` after its pad, and no lower-keyed block fits; when none is chosen, no block fits |
| `BufferProperties.AllocContract` | topo-volume/glt/buffer_allocator.h:59-61 | `alloc` succeeds iff some free block fits; a success keeps the invariant and returns `sz` bytes of this buffer at an offset that is a multiple of `align`; a failure changes neither the ledgers nor `buf` |
| `BufferProperties.AllocFirstFit` | topo-volume/glt/buffer_allocator.cpp:123-130 | the lease lies inside the lowest-keyed fitting free block, at that block's first aligned offset |
| `BufferProperties.AllocShape` | topo-volume/glt/buffer_allocator.cpp:131-147 | used gains at most the lease, and gains it unless its key was already used; free loses the chosen block and gains at most the trailing block, plus the pad when it is not 0, and nothing on an exact fit; a non-zero pad always lands in free, and the trailing block does unless another free entry has its key; every other entry stays; an exact fit has no pad |
| `BufferProperties.AllocNoAlias` | topo-volume/glt/buffer_allocator.cpp:127-147 | a lease shares no byte with a live lease or a remaining free block, and is recorded as used unless its key was already used |
| `BufferProperties.CarveValid` | topo-volume/glt/buffer_allocator.cpp:132-147 | the split keeps the ledgers ordered, inside the buffer and pairwise disjoint |
| `Buffers.Buffer.Alloc` | topo-volume/glt/buffer_allocator.cpp:119-152 | the first-fit loop leaves exactly the state and result of `BufferModel.Alloc`, and keeps the invariant |
| `Buffers.Buffer.Split` | topo-volume/glt/buffer_allocator.cpp:128-147 | the erase and insert steps of the fitting iteration produce `BufferModel.Carve` and the aligned lease |
| `ReallocProperties.ReallocContract` | topo-volume/glt/buffer_allocator.h:62-65 | `realloc` succeeds iff the sub-buffer is ours, the free ledger is not empty, and it can grow in place or some free block fits; a success gives `newSz` bytes in this buffer; a failure changes nothing and copies nothing |
| `ReallocProperties.ReallocInPlace` | topo-volume/glt/buffer_allocator.cpp:157-170 | when free block `j` starts at the sub-buffer's end and is large enough: the offset is kept, the size becomes `newSz`, the block is live, no copy is issued; the used entry is resized and no other used entry changes; block `j` is erased from free and, unless fully absorbed, its remainder past the new end is inserted |
| `ReallocProperties.GrowValid` | topo-volume/glt/buffer_allocator.cpp:159-169 | in-place growth keeps the invariant and leaves the grown extent live |
| `ReallocProperties.ReallocMoves` | topo-volume/glt/buffer_allocator.cpp:171-182 | otherwise a success moves the sub-buffer to an aligned extent of the same buffer that does not overlap the old one, with one copy from the old offset to the new one; the old key leaves the used ledger, and the new extent is live unless its key was already used |
| `ReallocProperties.ReallocValid` | topo-volume/glt/buffer_allocator.cpp:153-183 | `realloc` keeps the ledger invariant |
| `Buffers.Buffer.Realloc` | topo-volume/glt/buffer_allocator.cpp:153-183 | the method leaves exactly the state, sub-buffer and copies of `BufferModel.Realloc` |
| `FreeProperties.FreeShape` | topo-volume/glt/buffer_allocator.h:66-67 | `free` removes exactly the used entries keyed at the sub-buffer's offset; the free bytes afterwards are the old free bytes plus the released block's (unless its key was already free); no two neighbouring free blocks touch |
| `FreeProperties.FreeValid` | topo-volume/glt/buffer_allocator.cpp:184-203 | `free` keeps the ledger invariant, so live leases still never overlap |
| `FreeProperties.CoalesceNoAdjacent` | topo-volume/glt/buffer_allocator.cpp:191-202 | after the coalescing pass no free block ends where the next one starts |
| `FreeProperties.CoalesceFromCovered` | topo-volume/glt/buffer_allocator.cpp:192-201 | the coalescing pass keeps exactly the same free bytes |
| `FreeProperties.CoalesceFromFine` | topo-volume/glt/buffer_allocator.cpp:195-197 | merging neighbours keeps the free blocks disjoint, inside the buffer and apart from the used ones |
| `Buffers.Buffer.Free` | topo-volume/glt/buffer_allocator.cpp:184-203 | the erase, insert and merge loop leaves exactly `BufferModel.Free` and keeps the invariant |
| `Scenarios.AlignedAllocations` | topo-volume/glt/buffer_allocator.cpp:119-152 | 10 then 5 bytes at alignment 16 in 100 bytes: leases at 0 and 16, free `{10,6}` and `{21,79}` |
| `Scenarios.ReleaseFirstThenSecond` | topo-volume/glt/buffer_allocator.cpp:184-203 | releasing `{0,50}` and then `{50,50}` leaves the single free block `{0,100}` |
| `Scenarios.ReleaseSecondThenFirst` | topo-volume/glt/buffer_allocator.cpp:190-202 | releasing in the other order ends in the same state |
| `Scenarios.GrowInPlace` | topo-volume/glt/buffer_allocator.cpp:159-169 | `{0,10}` grows to 30 bytes into the free `{10,50}`, leaving free `{30,30}`, with no copy |
| `Scenarios.LostBytesRun` | topo-volume/glt/buffer_allocator.cpp:141-142 | allocating 10, 80 and 10 bytes, freeing the 80, then allocating 78 at alignment 4 leaves the empty free block `{90,0}`, in a state that satisfies the invariant |
| `Scenarios.FreeLosesBytes` | topo-volume/glt/buffer_allocator.cpp:190 | freeing the lease `{90,10}` then drops its bytes, because the insert at key 90 does nothing: byte 95 ends up in neither ledger |
| `AllocatorModel.Init` | topo-volume/glt/buffer_allocator.cpp:205-210 | a new allocator holds one valid buffer of `capacity` bytes |
| `Allocators.BufferAllocator.constructor` | topo-volume/glt/buffer_allocator.cpp:205-210 | the constructed object holds the state `AllocatorModel.Init` describes, with an empty copy log |
| `AllocatorModel.AlignmentOf` | topo-volume/glt/buffer_allocator.h:70-74 | each of the three categories resolves to one of the three reported alignments, which are positive |
| `AllocatorModel.FirstServing` | topo-volume/glt/buffer_allocator.cpp:213-217 | the chosen buffer can serve the request and no earlier buffer can |
| `AllocatorModel.Owner` | topo-volume/glt/buffer_allocator.cpp:241-247 | `find_if(contains)` returns the first buffer whose name the sub-buffer carries |
| `AllocatorProperties.AllocLeases` | topo-volume/glt/buffer_allocator.h:89-90 | `BufferAllocator::alloc` always returns `sz` aligned bytes in a buffer it holds, never the default sub-buffer, so the fallback at lines 223-225 is unreachable |
| `AllocatorProperties.AllocInExisting` | topo-volume/glt/buffer_allocator.cpp:213-217 | a request some buffer can serve goes to the first such buffer; nothing is appended and the other buffers are unchanged |
| `AllocatorProperties.AllocAppends` | topo-volume/glt/buffer_allocator.cpp:218-222 | otherwise exactly one buffer of `max(capacity, sz)` bytes with a fresh name is appended, and the lease is its offset 0 |
| `AllocatorProperties.AllocGrowsIff` | topo-volume/glt/buffer_allocator.h:76-77 | a buffer is appended iff no existing buffer can serve the request, and never more than one |
| `AllocatorProperties.AllocValid` | topo-volume/glt/buffer_allocator.cpp:211-226 | `alloc` keeps the allocator invariant |
| `AllocatorProperties.OwnerUnique` | topo-volume/glt/buffer_allocator.cpp:116-118 | buffer names are distinct, so the owner `find_if` picks is the only buffer containing the sub-buffer |
| `AllocatorProperties.AllocForAligned` | topo-volume/glt/buffer_allocator.cpp:227-238 | `alloc(sz, BufAlignment)` aligns to the ubo, tbo or ssbo alignment of the category |
| `AllocatorProperties.FreeZeroes` | topo-volume/glt/buffer_allocator.cpp:276-285 | `free` releases through the owner alone and zeroes the caller's size; with no owner nothing changes |
| `AllocatorProperties.FreeKeepsValid` | topo-volume/glt/buffer_allocator.cpp:277-281 | `free` keeps the allocator invariant |
| `AllocatorProperties.ReallocStays` | topo-volume/glt/buffer_allocator.cpp:249 | when the owner serves the realloc, the sub-buffer keeps its buffer, takes `newSz` bytes, and no other buffer changes |
| `AllocatorProperties.ReallocElsewhere` | topo-volume/glt/buffer_allocator.cpp:249-258 | when the owner refuses, the new lease is `newSz` aligned bytes in another buffer, one copy moves the old bytes, and the old key is no longer used in the owner |
| `AllocatorProperties.ReallocForeign` | topo-volume/glt/buffer_allocator.cpp:241-245 | a sub-buffer no buffer holds is left as it is, with no copy |
| `AllocatorProperties.ReallocKeepsValid` | topo-volume/glt/buffer_allocator.cpp:239-260 | `realloc` keeps the allocator invariant |
| `Allocators.BufferAllocator.Alloc` | topo-volume/glt/buffer_allocator.cpp:211-226 | the loop over buffers leaves exactly `AllocatorModel.Alloc`, only appends to `buffers`, and leaves the copy log unchanged |
| `Allocators.BufferAllocator.AllocNew` | topo-volume/glt/buffer_allocator.cpp:218-225 | appends one fresh buffer and allocates there, as `AllocatorModel.Alloc` does when no buffer serves |
| `Allocators.BufferAllocator.AllocFor` | topo-volume/glt/buffer_allocator.cpp:227-238 | the category dispatch leaves exactly `AllocatorModel.AllocFor` |
| `Allocators.BufferAllocator.Free` | topo-volume/glt/buffer_allocator.cpp:276-285 | the owner search and release leave exactly `AllocatorModel.Free` |
| `Allocators.BufferAllocator.FindOwner` | topo-volume/glt/buffer_allocator.cpp:241-247 | returns the owner's index (or the end) as `AllocatorModel.Owner` does |
| `Allocators.BufferAllocator.Realloc` | topo-volume/glt/buffer_allocator.cpp:239-260 | leaves exactly `AllocatorModel.Realloc` and appends its copies to the log |
| `Allocators.BufferAllocator.ReallocOwned` | topo-volume/glt/buffer_allocator.cpp:247-258 | the same, once the owner's index is known |
| `Allocators.BufferAllocator.ReallocIn` | topo-volume/glt/buffer_allocator.cpp:249 | only buffer `parent` changes, as `BufferModel.Realloc` says |
| `Allocators.BufferAllocator.Relocate` | topo-volume/glt/buffer_allocator.cpp:250-257 | allocates anywhere, logs the copy and frees the old extent in the owner (held by index across the append) |
| `Allocators.BufferAllocator.CopyOut` | topo-volume/glt/buffer_allocator.cpp:250-256 | the allocation, the copy record and the release in `buffers[parent]`, stated against the allocation result |
| `Allocators.BufferAllocator.FreeAt` | topo-volume/glt/buffer_allocator.cpp:256 | `buffers[parent].free(b)` changes only that buffer |
| `Allocators.BufferAllocator.ReallocFor` | topo-volume/glt/buffer_allocator.cpp:261-275 | the category dispatch leaves exactly `AllocatorModel.ReallocFor` |
| `Scenarios.AllocatorGrows` | topo-volume/glt/buffer_allocator.cpp:211-222 | with capacity 64, a 100-byte request appends a 100-byte buffer named 2 and leases all of it at offset 0 |
| `Mapping.MapMultiple` | topo-volume/glt/buffer_allocator.cpp:38-80 | the invalidate bit is cleared and every other access bit kept; one range per buffer name; one pointer per region, in input order, equal to its buffer's base plus the region's distance from the range start, and never below the base |
| `Mapping.BuildRanges` | topo-volume/glt/buffer_allocator.cpp:47-64 | the first loop builds exactly `Ranges(bs)`, keyed by the names in `bs` |
| `Mapping.MapRanges` | topo-volume/glt/buffer_allocator.cpp:65-72 | each range is mapped once, and its base is the address GL returned |
| `Mapping.Pointers` | topo-volume/glt/buffer_allocator.cpp:74-79 | one pointer per region, in order |
| `Mapping.RangesKeys` | topo-volume/glt/buffer_allocator.cpp:48-52 | there is a range for exactly the buffer names that occur |
| `Mapping.RangeIsMin` | topo-volume/glt/buffer_allocator.cpp:54 | a range starts at the lowest offset of its buffer's regions |
| `Mapping.FirstSeeds` | topo-volume/glt/buffer_allocator.cpp:49-52 | the first region of a buffer seeds its range |
| `Mapping.AscendingCovers` | topo-volume/glt/buffer_allocator.h:29-32 | regions visited in ascending, non-overlapping order all lie inside their range |
| `Mapping.RangeShrinks` | topo-volume/glt/buffer_allocator.cpp:57-58 | out of order, the range of `{50,10}, {0,10}, {20,10}` shrinks from `[0,60)` to `[0,30)` and misses the first region |
| `Mapping.AddId` | topo-volume/glt/buffer_allocator.cpp:84 | `std::set::insert` keeps the names ascending and adds exactly the new one |
| `Mapping.UnmapMultiple` | topo-volume/glt/buffer_allocator.cpp:81-90 | each distinct buffer name is unmapped exactly once, in ascending order |
| `Bits.IsPow2Exact` | topo-volume/glt/util.h:31-33 | `is_pow2(x)` holds iff `x == 2^k` for some `k < 64`; `is_pow2(0)` is false |
| `Bits.NextPow2Spec` | topo-volume/glt/util.h:20-29 | for `1 <= x <= 2^63` the result `r` is a power of two with `x <= r` and `r / 2 < x`; for `x == 0` and for `x > 2^63` it wraps to 0; a power of two maps to itself |
| `Bits.RoundIsTight` | topo-volume/glt/util.h:21-28 | half of `next_pow2(x)` is below `x`: no smaller power of two is at least `x` |
| `ImageFlip.SwapRow` | topo-volume/glt/util.cpp:196-200 | the loop leaves exactly `Swaps(old, a, b, n)` |
| `ImageFlip.RowsExchanged` | topo-volume/glt/util.cpp:197-199 | on non-overlapping rows, byte `i` of each row takes the other row's byte `i`, and every other byte is unchanged |
| `ImageFlip.SwapTwice` | topo-volume/glt/util.cpp:196-200 | swapping the same two rows twice restores the bytes |
| `ImageFlip.SwapSelf` | topo-volume/glt/util.cpp:198 | swapping a row with itself changes nothing |
| `ImageFlip.DistinctRows` | topo-volume/glt/util.cpp:230 | while `i < y/2`, rows `i` and `y-1-i` are distinct and do not overlap |
| `ImageFlip.FlipStep` | topo-volume/glt/util.cpp:231 | one iteration of the loop takes the image from `i` to `i+1` mirrored row pairs |
| `ImageFlip.FlipRows` | topo-volume/glt/util.cpp:230-232 | the flip loop leaves exactly `Flipped(old, x*n, y)` |
| `ImageFlip.FlipMirrorsRow` | topo-volume/glt/util.cpp:230-232 | after the flip, byte `c` of row `r` is the original byte `c` of row `y-1-r` |
| `ImageFlip.FlipKeepsMiddle` | topo-volume/glt/util.cpp:230 | when `y` is odd the middle row is unchanged |
| `ImageFlip.FlipKeepsTail` | topo-volume/glt/util.cpp:231 | bytes after the first `y` rows are untouched |
| `ImageFlip.FlipTwice` | topo-volume/glt/util.cpp:230-232 | flipping twice restores the image |
| `ImageFlip.FlipImages` | topo-volume/glt/util.cpp:269-273 | every image of the array is flipped, each as `FlipRows` does |

## Left out

- GL calls are replaced as described above:
  - `glGenBuffers`, `glBufferStorage`/`glBufferData`, `glDeleteBuffers`
    and `glGetIntegerv`;
  - `glBindBuffer`/`glMapBufferRange`/`glUnmapBuffer` in `map_multiple`
    and `unmap_multiple`;
  - `glCopyBufferSubData`.
  Their effect on GPU memory is not modelled, so the contents that a copy
  carries are not modelled either.
- `SubBuffer::map` and `SubBuffer::unmap` are single GL calls and are not
  modelled.
- The `Buffer` move constructor and destructor are C++ resource ownership.
  Each `Buffer` is a separate object here.
- The printing operators and the `std::cout` diagnostics produce output
  only.
- `size_t` is modelled as an unbounded `nat`:
  - Overflow of `offset + size` past 2^64 is not modelled.
  - The `size_t` underflow of `realloc` is excluded by `newSz >= b.size`.
  - `align > 0` is required, because of the modulo.
  - A sub-buffer that is past `realloc`'s first guard must be live (the
    `used.find` there is unchecked). `free`'s argument must have its key in
    `used` (the source asserts it).
- The `std::map` ledgers are sequences sorted by key. The key of every
  entry is its block's offset, which the source maintains.
- `Bits.NextPow2Spec` states the upper bound as `r >> 1 < x` rather than
  `r < 2 * x`. The two agree for a power of two `r`, but the statement
  stays in `bv64` to avoid an unbounded product.
- `Mapping.MapMultiple`:
  - Pointers are integers, and `mapBase` is an uninterpreted address per
    buffer name.
  - The diagnostic printed when the invalidate bit is cleared is left out.
  - The order in which `std::unordered_map` yields the ranges to map is
    left open.
- `ImageFlip.FlipRows`:
  - The image is an `array<byte>` of at least `y * x * n` bytes. The `int`
    overflow of `i * x * n` is not modelled.
  - The `stbi` loading, the format switch and the texture upload around the
    loop are I/O or GL calls and are left out.
- `ImageFlip.FlipImages`: the images are distinct arrays, each holding at
  least `y` rows. The loading loop that checks that every image has the
  same dimensions (and throws otherwise) is left out; the flip starts from
  images that passed it.
- Shader-source and file loading, `set_thread_name`, the widgets, the
  volume, the camera and the renderer glue are outside this model.
