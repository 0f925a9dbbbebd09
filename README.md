# Host-memory tracker of the compute engine, in Dafny

This project models the debug host-memory tracker of the compute engine
(`src/memory.c`). The tracker sits in front of the raw allocator. Every
tracked allocation gets a block header that records its size and its call
site (file name and line). The header is linked at the tail of an
intrusive doubly linked list owned by a tracking context
(`ce_memory_info_t`). The context also keeps:

- the allocation and deallocation counters;
- the live block and byte counts;
- an optional byte budget;
- the peak of live bytes and the largest block size;
- a 32-entry histogram of request sizes by power-of-two class.

The model has three modules:

- `Blocks` (`blocks.dfy`) holds the block header as a class
  (`Block`: constant size, file name and line; mutable `prev`/`next`
  links). It also holds the specification functions over the list read as
  a sequence from head to tail: `SumSizes`, `Named`, `Anonymous`,
  `RemoveAt`, `IndexOf`. The lemmas about them live here too.
- `SizeClasses` (`size_classes.dfy`) holds the size classification of
  the histogram:
  - `Bucket(n)` is the least `i` in 0..30 with `n <= 2^i`, else 31;
  - `InBucket` is the reference description of each bucket's range;
  - `BucketIndex` is the classification loop with its shifting
    `two_power`.
- `HostMemory` (`host_memory.dfy`) holds the tracking context as a
  class, `MemoryInfo`. A ghost field `nodes` is the list as a sequence.
  - `Linked()` ties the head, tail, `prev` and `next` pointers to
    `nodes`.
  - `Counted()` says that `blockCount` and `byteCount` are the length
    and the byte total of `nodes`.
  - The class has the list operations, the tracked allocate and
    deallocate paths, and the counting walk of the report.
  - Outside the class are the two entry points. Each takes the context
    as a `MemoryInfo?` that is null when tracking is off. Two closed
    scenarios follow: allocate-then-free, and the report after a mixed
    sequence.

A pointer handed to the caller is a `Pointer` value with three cases:

- `Null`;
- `Raw(bytes)`, from the untracked fallback;
- `Payload(block)`, which stands for the header of a tracked block.

What a deallocation did is a `FreeOutcome`:

- `Delegated`: handed to the raw deallocator;
- `IgnoredNull`: a null pointer, so only the counter moved;
- `Released`: unlinked, accounted and freed;
- `Mismatch`: unlinked, but the accounting check failed. A warning is
  issued and the memory is not freed.

The deallocate path requires only `WellFormed()` (consistent links), not
`Counted()`. This keeps the mismatch branch of the code reachable in the
model. When the counters do agree with the list, the model proves that the
mismatch branch is never taken and that the agreement survives.

Three behaviours of the code are worth stating on their own:

- The histogram has 32 entries and the overflow bucket is 31
  (`src/memory.c:65`, `src/memory.c:175-177`).
- `deallocations` moves only on the tracked path (`src/memory.c:193-199`):
  the untracked fallback returns before it.
- On a budget failure the block stays linked and counted
  (`src/memory.c:140-151`). The peak `maxAllocatedBytes` is not raised in
  that case (`src/memory.c:153-156`), so afterwards it can be below
  `byteCount`. The model states the peak facts only for allocations within
  budget.

## Model

| member | source | states |
|---|---|---|
| HostMemory.MemoryInfo.InsertBlock | src/memory.c:70-89 | Appends at the tail: `nodes` becomes old `nodes` + [block] and the links stay consistent. The new tail is the block, with a null `next` and `prev` = the old tail. An empty list gets the block as its head; otherwise the old tail's `next` is the block. |
| HostMemory.MemoryInfo.RemoveBlock | src/memory.c:92-114 | Unlinks a listed block from any position (sole, head, tail, interior). `nodes` becomes old `nodes` without that block, the block is no longer listed (the multiset of blocks loses exactly that one), and the links stay consistent. Head and tail move to the block's neighbour exactly when the block was at that end. The block's own links are left as they were. |
| HostMemory.MemoryInfo.Splice | src/memory.c:97-113 | The pointer surgery of the unlink: each neighbour that exists is pointed at the other. A missing neighbour moves the head or tail pointer instead. Nothing else changes. |
| Blocks.UnlinkKeepsLinks | src/memory.c:97-113 | When the neighbours of position k point at each other and every other link is as before, the links spell the list without its k-th block. |
| Blocks.RemoveAtDistinct | src/memory.c:92-114 | Removing one block from a list without repeats leaves a list without repeats that no longer holds it. |
| Blocks.RemoveAtMultiset | src/memory.c:92-114 | Removing a block from the list loses exactly that block: the multiset of the shorter list plus that block is the multiset of the old list. |
| Blocks.AppendThenRemove | src/memory.c:70-114 | Appending a block that is not yet listed and then removing it restores the list; the appended block sits at the old length. |
| HostMemory.MemoryInfo.Allocate | src/memory.c:132-181 | Tracked allocate path. `allocations` and `blockCount` each grow by 1 and `byteCount` by the size. A fresh block with the given size, file name and line is appended. A warning (null result) happens exactly when the budget is set and exceeded; then the block stays linked and counted, and the peaks and histogram are unchanged. Within budget the result is the block, and the peak becomes max(old peak, `byteCount`). With size tracking on, the largest size becomes max(old, size) and exactly the entry `Bucket(size)` grows by 1; with it off, neither changes. Counters that agreed with the list still agree. |
| HostMemory.MemoryInfo.Track | src/memory.c:134-145 | A fresh block with the request's size, file name and line is appended to the list. The live counts grow by one block and by its size, so counters that agreed with the list still agree. |
| Blocks.SumSnoc | src/memory.c:144-145 | Appending a block adds exactly its size to the byte total of the list. |
| HostMemory.MemoryInfo.RecordAllocation | src/memory.c:153-179 | The peak becomes max(old peak, `byteCount`), so it never decreases and is at least `byteCount`. With size tracking on, the largest size becomes max(old, size) and exactly the entry `Bucket(size)` grows by 1. With tracking off, the largest size and the histogram are unchanged. |
| SizeClasses.BucketIndex | src/memory.c:165-178 | The classification loop ends on `Bucket(bytes)`: the first i in 0..30 whose bound 2^i holds the size, or 31 when none does. |
| SizeClasses.Pow2FitsUInt32 | src/memory.c:166-167 | Every bound the loop reaches is at most 2^31, so the unsigned doubling of `two_power` never wraps around. |
| SizeClasses.BucketFrom | src/memory.c:167-174 | Classification resumed at bucket i yields a bucket between i and 31. Below 31 that bucket's bound holds the size. |
| SizeClasses.BucketFromSkipsSmaller | src/memory.c:167-174 | Classification resumed at bucket i passes over only bounds that are too small for the size. |
| SizeClasses.Bucket | src/memory.c:167-177 | The bucket is one of the 32 entries, and below the overflow bucket its bound holds the size. |
| SizeClasses.BucketIsLeast | src/memory.c:167-174 | Every bound below the chosen bucket is smaller than the size, so the bucket is the least that fits. |
| SizeClasses.BucketInRange | src/memory.c:167-177 | Every size lies in the range of its bucket: at most 1 for bucket 0, (2^(i-1), 2^i] for buckets 1 to 30, above 2^30 for bucket 31. |
| SizeClasses.BucketAbove | src/memory.c:167-177 | A size above the bound of a regular bucket j is classified above j. |
| SizeClasses.BucketAtMost | src/memory.c:167-174 | A size within the bound of a regular bucket i is classified at or below i. |
| SizeClasses.RangeDeterminesBucket | src/memory.c:167-177 | A size in the range of bucket i is classified into i, so the ranges do not overlap. |
| SizeClasses.BucketMatchesRange | src/memory.c:167-177 | `Bucket(n) == i` exactly when n lies in the range of bucket i, in both directions. |
| SizeClasses.BucketOfPowerOfTwo | src/memory.c:167-174 | A request of exactly 2^k bytes, with k below 31, lands in bucket k. |
| SizeClasses.BucketOverflow | src/memory.c:175-177 | Exactly the sizes above 2^30 land in the overflow bucket 31. |
| HostMemory.MemoryInfo.Deallocate | src/memory.c:199-221 | Tracked deallocate path. `deallocations` always grows by 1, and a null pointer changes nothing else. Otherwise the block is unlinked and the accounting check settles the counters. Counters that agreed with the list pass the check and still agree afterwards. |
| HostMemory.MemoryInfo.Untrack | src/memory.c:206-221 | The block is unlinked first, so whatever the check says it ends up out of the list. The outcome is Released or Mismatch, with counter effects as in the accounting check. If the counters agreed with the list, the outcome is Released and they agree with the shorter list. |
| HostMemory.MemoryInfo.ReleaseAccounting | src/memory.c:211-221 | The check passes exactly when `blockCount > 0` and `byteCount >= size`. A pass drops the counts by one block and `size` bytes. A failure (Mismatch, a warning) leaves both counts as they were. |
| Blocks.RemoveAtSum | src/memory.c:211-214 | Taking a block out of the list takes exactly its size off the byte total. |
| Blocks.ReleaseKeepsCounts | src/memory.c:211-214 | Counters equal to a list's length and byte total pass the accounting check for any listed block. After the decrement they equal the length and byte total of the list without that block. |
| HostMemory.AllocateHostMemory | src/memory.c:119-182 | With no context, the request goes to the raw allocator (Raw) and no tracking state changes. With a context it takes the tracked path, and the contract carries all of it. `allocations` and `blockCount` grow by 1 and `byteCount` by the size; `deallocations` and the budget are unchanged. The old list is a prefix of the new one, whose tail is a fresh block with the request's size, file name and line. The result is null exactly on a budget warning; then the peak, the largest size and the histogram are unchanged. Otherwise the result is that block and the peak becomes max(old peak, `byteCount`). With size tracking on, the largest size becomes max(old, size) and exactly the entry `Bucket(size)` grows by 1; with it off, neither changes. |
| HostMemory.DeallocateHostMemory | src/memory.c:185-222 | With no context the pointer goes to the raw deallocator (Delegated), and only then. With a context, `deallocations` grows by 1, and `allocations`, the peak, the largest size, the size-tracking flag and the budget are unchanged. A null pointer leaves the list and the live counts alone. A tracked block leaves the list, and the accounting check settles the counters: Released exactly when `blockCount > 0` and `byteCount >= size`, with both counts dropped; otherwise Mismatch with both counts as they were. Counters that agreed with the list still agree. |
| HostMemory.AllocateThenDeallocate | src/memory.c:119-222 | With no budget, allocating and then freeing the result releases it. This restores the list, `blockCount` and `byteCount`, and moves each of `allocations` and `deallocations` by one. |
| HostMemory.MemoryInfo.LogHostMemoryInfo | src/memory.c:251-265 | The walk from the head along `next` counts the named blocks and bytes as the length and byte total of `Named(nodes)`, and the anonymous ones likewise. Named plus anonymous is the list length and the list byte total. When the counters agree with the list, that is `blockCount` and `byteCount`. |
| Blocks.CountStep | src/memory.c:254-263 | One step of the walk adds the current block to the named side or the anonymous side, never both. |
| Blocks.NamedSnoc | src/memory.c:254-263 | Appending a named block extends only the named sub-list; appending an anonymous one extends only the anonymous sub-list. |
| Blocks.NamedAnonymousPartition | src/memory.c:251-265 | The named and anonymous sub-lists split the list: their multisets add up to the list's, and so do their lengths and byte totals. |
| HostMemory.TwoAllocationsThenFree | src/memory.c:119-222 | Through a fresh context without budget: allocate 100 bytes from ("a.c", 10), allocate 4096 bytes anonymously, free the first. The list then holds only the anonymous 4096-byte block, the counters agree with it, and `allocations` is 2 and `deallocations` 1. |
| HostMemory.ReportScenario | src/memory.c:251-265 | The report after that sequence shows 2 allocations and 1 deallocation. One live block of 4096 bytes remains; it is anonymous, and there are no named blocks. |

## Left out

- Counter width: every counter is an unbounded `nat`. The `size_t` wrap-around of `allocations`, `deallocations`, `block_count` and `byte_count` is not modelled, because it would need more than 2^64 live bytes or calls.
- The raw allocator and deallocator: `malloc` and `free` are not modelled. The untracked fallback returns `Raw(bytes)` or reports `Delegated`. The header-size pointer arithmetic (`src/memory.c:133-142`, `206-208`) is replaced by handing out the header object itself.
- The unchecked `malloc` result on the tracked path (`src/memory.c:134-137`): the model assumes the raw allocator succeeds.
- Diagnostics: `ceWarning`/`ceInfo` text is not modelled. A warning is the `warned` result of an allocation or the `Mismatch` outcome of a deallocation. The per-block dump of the report (`src/memory.c:267-288`) is not modelled.
- The disabled-tracking branch of `ceLogHostMemoryInfo` (`src/memory.c:232-235`) is not modelled: it reads a field through a null context. `LogHostMemoryInfo` is defined only for an existing context.
- Session lookup (`src/memory.c:39-42`, `125-127`) becomes the `MemoryInfo?` parameter of the entry points. The unused device-tracking pointer is not modelled.
- Freeing a pointer this context never handed out, or freeing one twice, is undefined behaviour in the code. The tracked deallocate path therefore requires a null pointer or a block that is in the list.
- Creating and destroying a tracking context happens outside `src/memory.c` and is not part of this model. `MemoryInfo.constructor` stands in for a zeroed context.
- Thread safety: the code has no locking and the model is sequential.
- `include/map.h` (the session's object map) is not part of this model.
