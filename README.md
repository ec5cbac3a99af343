# SV39 memory and task-table core of the zos teaching kernel, in Dafny

This project models three sequential pieces of a small RISC-V kernel that uses
SV39 paging:

- **Address algebra** (`address.dfy`, `page_table.dfy`, `config.dfy`).
  `PhysAddr`, `VirtAddr`, `PhysPageNum` and `VirtPageNum` wrap one 64-bit word.
  Building one from a raw word masks the word to its architectural width: 56,
  44 or 27 bits. As written, `VirtAddr` is also masked to 56 bits.
  A page number becomes an address by shifting left 12 bits.
  An address becomes a page number by checking that the page offset is zero
  and shifting right.
  Words are integers in `[0, 2^64)`. On such a word, `x & (2^w - 1)` is
  `x % 2^w`, `x >> 12` is `x / 4096`, and `x << 12` is `(x * 4096) % 2^64`.
  The page-table flags are the eight bit constants V, R, W, X, U, G, A, D of a byte.
  A page-table entry is one word.
- **Frame allocator** (`frame_allocator.dfy`).
  `AllocStep` and `DeallocStep` describe one `alloc` and one `dealloc` on an
  abstract state: a bump pointer `current`, a bound `end` and a LIFO stack
  `recycled`.
  The class `StackFrameAllocator` performs the same operations in place and
  is proved against these two functions.
  The lemmas prove the allocator's invariant, LIFO reuse, the order of bump
  allocations, and ownership accounting: no page is handed out twice, and,
  from `init`'s lower bound up, `dealloc` panics exactly on pages nobody
  owns. Below that bound `dealloc` accepts pages it never handed out.
  `FrameTracker` zeroes its page when built and returns it through one
  `dealloc` when released.
- **Task table** (`context.dfy`, `task.dfy`, `task_manager.dfy`).
  A task context holds `ra`, `sp` and twelve callee-saved registers.
  A task control block is a status plus a context.
  The class `TaskManager` holds the 16-slot array.
  Its constructor is the boot-time initialisation loop.
  Its two methods overwrite the current task's status.

`wrappers.dfy` defines `Option` and a `Result` whose error arm is the panic
the kernel raises (`assert_eq!`, or `dealloc` on a frame that is not allocated).

## Model

| member | source | states |
|---|---|---|
| `Address.PhysAddrFromUsize` | os/src/mm/address.rs:21-25 | the result is below 2^56 and congruent to the input modulo 2^56, i.e. exactly its low 56 bits |
| `Address.PhysPageNumFromUsize` | os/src/mm/address.rs:27-31 | the result is below 2^44 and is the input's low 44 bits |
| `Address.VirtAddrFromUsize` | os/src/mm/address.rs:33-37 | as written: the low 56 bits (the physical width), the same word `PhysAddr::from` keeps |
| `Address.VirtAddrFromUsizeSv39` | os/src/mm/address.rs:33-37 | corrected: the result is below 2^39 and is the input's low 39 bits |
| `Address.VirtPageNumFromUsize` | os/src/mm/address.rs:39-43 | the result is below 2^27 and is the input's low 27 bits |
| `Address.UsizeFromPhysAddr` | os/src/mm/address.rs:45-49 | masking the inner word again gives the same address iff the address is below 2^56 |
| `Address.UsizeFromPhysPageNum` | os/src/mm/address.rs:51-55 | masking the inner word again gives the same page number iff it is below 2^44 |
| `Address.UsizeFromVirtAddr` | os/src/mm/address.rs:57-61 | masking the inner word again gives the same address iff it is below 2^56 |
| `Address.UsizeFromVirtPageNum` | os/src/mm/address.rs:63-67 | masking the inner word again gives the same page number iff it is below 2^27 |
| `Address.MaskingIdempotent` | os/src/mm/address.rs:21-67 | a wrapper built from a word survives another trip through `usize` unchanged, for all four wrappers |
| `Address.PhysPageOffset` | os/src/mm/address.rs:95-99 | the offset is below 4096, at most the address, and the address minus it is page aligned |
| `Address.VirtPageOffset` | os/src/mm/address.rs:101-105 | the same for virtual addresses |
| `Address.PhysPageNumFromPhysAddr` | os/src/mm/address.rs:69-74 | panics (assertion) iff the page offset is non-zero; otherwise page number × 4096 is the address, and an in-width address gives an in-width page number |
| `Address.VirtPageNumFromVirtAddr` | os/src/mm/address.rs:76-81 | panics iff the page offset is non-zero; otherwise page number × 4096 is the address, and an address below 2^39 gives a page number below 2^27 |
| `Address.PhysAddrFromPhysPageNum` | os/src/mm/address.rs:83-87 | the address is page aligned; for a page number below 2^44 it is page number × 4096 and below 2^56 |
| `Address.VirtAddrFromVirtPageNum` | os/src/mm/address.rs:89-93 | the address is page aligned; for a page number below 2^27 it is page number × 4096 and below 2^39 |
| `Address.PhysAddrRoundTrip` | os/src/mm/address.rs:69-87 | an aligned physical address converts to a page number without panicking and back to itself |
| `Address.PhysPageNumRoundTrip` | os/src/mm/address.rs:69-87 | every page number below 2^52 (all bits survive the 12-bit shift), including those wider than 44 bits, converts to an address and back to itself |
| `Address.VirtAddrRoundTrip` | os/src/mm/address.rs:76-93 | an aligned virtual address converts to a page number and back to itself |
| `Address.VirtPageNumRoundTrip` | os/src/mm/address.rs:76-93 | every virtual page number below 2^52 converts to an address and back to itself, including the ones up to 2^44 that 56-bit-masked addresses yield |
| `Address.PhysAddrFromPhysPageNumMonotone` | os/src/mm/address.rs:83-87 | for in-width page numbers, p < q iff address(p) < address(q) (the derived orderings compare inner words) |
| `Address.VirtAddrFromVirtPageNumMonotone` | os/src/mm/address.rs:89-93 | the same for virtual page numbers below 2^27 |
| `Address.PhysAddrFromWidePhysPageNum` | os/src/mm/address.rs:83-87 | page → address does not mask: page 2^44 gives address 2^56, and page 2^52 shifts to 0 |
| `Address.VirtAddrFromUsizeExceedsSv39` | os/src/mm/address.rs:33-43 | as written, the aligned word 2^39 keeps bit 39 and yields page number 2^27, outside the 27-bit page-number width |
| `Address.VirtAddrFromUsizeSv39InWidth` | os/src/mm/address.rs:33-43 | with the 39-bit mask, every aligned virtual address yields a page number below 2^27 that the 27-bit mask leaves unchanged |
| `PageTable.FlagsWord` | os/src/mm/page_table.rs:4 | every flag set, widened to a word, is below 256 and is zero iff the set is empty |
| `PageTable.FlagsAreBitsInOrder` | os/src/mm/page_table.rs:5-12 | V, R, W, X, U, G, A, D are single bits 0 to 7 in that order |
| `PageTable.UnionOfPrefix` | os/src/mm/page_table.rs:5-12 | the union of the first k flags in declaration order is exactly the low k bits of the byte |
| `PageTable.FlagsPartitionByte` | os/src/mm/page_table.rs:5-12 | the eight flags are pairwise disjoint and their union is 0xFF |
| `FrameAllocator.Fresh` | os/src/mm/frame_allocator.rs:22-28 | `new()` satisfies the invariant with `current <= end`, and `alloc` on it returns None |
| `FrameAllocator.Succ` | os/src/mm/frame_allocator.rs:37 | `current + 1` is the next page number whenever it does not overflow the word |
| `FrameAllocator.AllocStep` | os/src/mm/frame_allocator.rs:30-41 | returns None iff nothing is recycled and `current == end`, and then changes nothing; `end` never changes; it preserves the invariant and `current <= end`; a page it hands out is below the new `current` and not in `recycled` |
| `FrameAllocator.DeallocStep` | os/src/mm/frame_allocator.rs:42-47 | panics iff `ppn >= current` or `ppn` is already recycled; otherwise pushes `ppn`, keeps `current` and `end`, and preserves the invariant |
| `FrameAllocator.AllocManyBumps` | os/src/mm/frame_allocator.rs:34-39 | with nothing recycled and k pages of room, k allocations return current, current+1, …, current+k-1 and advance `current` by k |
| `FrameAllocator.AllocAfterInit` | os/src/mm/frame_allocator.rs:30-54 | after `init(l, r)` on a new allocator with l ≤ r, the first r-l allocations return l, …, r-1 and the next returns None |
| `FrameAllocator.DeallocThenAlloc` | os/src/mm/frame_allocator.rs:30-47 | after a successful `dealloc(p)`, `alloc` returns `p` masked to 44 bits (`p` itself when in width) and restores the previous state (LIFO) |
| `FrameAllocator.DeallocBelowInitRange` | os/src/mm/frame_allocator.rs:42-54 | `dealloc` accepts page 0 after `init(l, r)` with 0 < l, although that page was never handed out |
| `FrameAllocator.InitAccounted` | os/src/mm/frame_allocator.rs:51-54 | a new allocator after `init(l, r)` with l ≤ r ≤ 2^44 owns nothing and satisfies the accounting invariant |
| `FrameAllocator.AllocAccounted` | os/src/mm/frame_allocator.rs:30-41 | `alloc` never hands out an owned page, and the accounting holds afterwards with that page owned |
| `FrameAllocator.DeallocAccounted` | os/src/mm/frame_allocator.rs:42-47 | returning an owned page never panics, and the accounting holds afterwards without it |
| `FrameAllocator.DeallocPanicsUnlessOwned` | os/src/mm/frame_allocator.rs:42-47 | from init's lower bound up, `dealloc(p)` panics iff p is not owned (a double or invalid free) |
| `FrameAllocator.Find` | os/src/mm/frame_allocator.rs:43 | the linear scan of `recycled` finds `ppn` iff it is in `recycled` |
| `FrameAllocator.StackFrameAllocator.constructor` | os/src/mm/frame_allocator.rs:22-28 | `current == end == 0` and `recycled` is empty |
| `FrameAllocator.StackFrameAllocator.Init` | os/src/mm/frame_allocator.rs:51-54 | sets `current := l` and `end := r` and leaves `recycled` unchanged |
| `FrameAllocator.StackFrameAllocator.Alloc` | os/src/mm/frame_allocator.rs:30-41 | the returned page and the new state are those `AllocStep` gives for the old state |
| `FrameAllocator.StackFrameAllocator.Dealloc` | os/src/mm/frame_allocator.rs:42-47 | panics exactly when `DeallocStep` does; otherwise the new state is `DeallocStep`'s |
| `FrameAllocator.FrameTracker.constructor` | os/src/mm/frame_allocator.rs:78-85 | records the page number and zeroes exactly the page's 4096 bytes, leaving all other memory unchanged |
| `FrameAllocator.FrameTracker.Release` | os/src/mm/frame_allocator.rs:88-92 | requires a tracker not yet released and marks it released; the allocator's new state is that of one `dealloc` of the tracker's page, which panics exactly when `DeallocStep` does |
| `FrameAllocator.FrameAlloc` | os/src/mm/frame_allocator.rs:94-99 | returns None iff `alloc` does, and then memory is unchanged; otherwise it returns a fresh tracker for the page `alloc` returned, with that page zeroed; the allocator ends in `alloc`'s new state |
| `Context.Default` | os/src/task/context.rs:1-7 | the default context has `ra`, `sp` and all twelve `s` registers zero |
| `Context.RestoreInit` | os/src/task/context.rs:10-19 | `sp` is the given kernel stack pointer, `ra` the trampoline address, and all twelve `s` registers are zero |
| `Context.RestoreInitDiffersOnlyInSp` | os/src/task/context.rs:10-19 | first-run contexts share `ra`, are equal iff their stack pointers are, and equal the default context with `ra` and `sp` replaced |
| `Task.StatusCases` | os/src/task/task.rs:3-9 | a status is one of exactly four distinct variants |
| `TaskManager.WithStatus` | os/src/task/mod.rs:60-70 | overwriting one slot's status keeps its context and every other slot |
| `TaskManager.ReadyCountOfBootTable` | os/src/task/mod.rs:27-35 | a table with the first n slots Ready and the rest UnInit has exactly n Ready and 16-n UnInit tasks |
| `TaskManager.CountAfterWithStatus` | os/src/task/mod.rs:60-70 | marking a slot adds one task of the new status unless it already had it, and removes one task of its old status |
| `TaskManager.WithStatusIdempotent` | os/src/task/mod.rs:60-70 | marking the same slot with the same status twice equals marking it once |
| `TaskManager.FinishedNotProtected` | os/src/task/mod.rs:60-70 | marking an exited task suspended makes it Ready again: nothing keeps Finished terminal |
| `TaskManager.TaskManager.constructor` | os/src/task/mod.rs:24-46 | 16 slots; slots below `num_task` are Ready with `restore_init(init_task_cx(i))`, the rest UnInit with the default context; `current_task == 0`; exactly `num_task` tasks are Ready |
| `TaskManager.TaskManager.MarkCurrentExited` | os/src/task/mod.rs:60-64 | only the current slot's status changes, to Finished; contexts, other slots, `num_task` and `current_task` are unchanged |
| `TaskManager.TaskManager.MarkCurrentSuspended` | os/src/task/mod.rs:66-70 | only the current slot's status changes, to Ready; everything else is unchanged |

Task statuses and control blocks are datatype values, copied like the
source's `Copy` types, so writing one array slot cannot affect another
(os/src/task/task.rs:3, 11). Equality on `TaskStatus` is its derived
`PartialEq` (os/src/task/task.rs:3). `TaskControlBlock` and `TaskContext`
derive no `PartialEq` (os/src/task/task.rs:11, os/src/task/context.rs:2).
Dafny's equality on them is used only in the contracts and has no
counterpart in the source.

## Left out

- `UPSafeCell` (os/src/utils/up.rs) and `exclusive_access()`: the model mutates the owning object directly. The cell exists for aliasing and exclusion, which a sequential model does not have.
- The rule that the guard must be dropped before a context switch: it is about cooperative control transfer, which a sequential model cannot express.
- The `lazy_static` globals `FRAME_ALLOCATOR` and `TASK_MANAGER`: they are explicitly constructed objects passed by reference.
- `init_frame_allocator` (os/src/mm/frame_allocator.rs:62-70): it needs the linker symbol `ekernel` and `page_number_ceil`/`page_number_floor`, which os/src/mm/address.rs does not define. `StackFrameAllocator.Init` takes the bounds as parameters instead.
- `get_bytes_array` is not part of this model. Physical memory is one byte array in which byte `i` is physical address `i`, so page `p` is bytes `[p*4096, (p+1)*4096)`.
- FrameAllocator.FrameAlloc: requires the allocator's invariant, `current <= end`, and a memory array that covers every page below `end`. The source writes through a raw pointer and checks none of this.
- FrameAllocator.Succ: the `Add`/`Sub` impls on `PhysPageNum` are not part of this model. `current + 1` wraps modulo 2^64, and `current - 1` after the increment is the page `current` held before. With `l <= r` at `init` the increment never overflows.
- FrameAllocator.StackFrameAllocator.Dealloc: a panic is returned as `Panic(FrameNotAllocated)` and the state is left unchanged. In the kernel the panic halts the machine.
- FrameAllocator.FrameTracker.Release: Rust ownership runs `drop` exactly once. The model enforces this with a ghost `released` flag.
- TaskManager.TaskManager.constructor: requires `num_task <= 16`. The source instead panics with an index out of bounds at `tcbs[16]`.
- `get_num_task_from_kernel` (a volatile read of `_num_app`), `init_task_cx` and `__restore` are outside this model. They become the constructor parameters `numTask`, `initTaskCx` and `restore`.
- The `switch` module declared at os/src/task/mod.rs:2 is not part of this model. os/src/task/mod.rs has no code that changes `current_task`, so the model keeps it at 0 after construction.
- The operations that the bitflags macro generates (`contains`, `from_bits`, set algebra) are not modelled beyond the bit constants and their union.
- os/src/loader.rs, os/src/main.rs and `frame_allocator_test`: volatile memory writes, inline assembly, boot sequence and printing. From os/src/config.rs only `PAGE_SIZE` and `PAGE_SIZE_BITS` are used.
- `mark_current_suspended` (os/src/task/mod.rs:66-70) never reads the old status, so a Finished task can become Ready again. The model follows the code, and `FinishedNotProtected` states it.
- os/src/mm/address.rs:6 declares `VA_WIDTH_SV39 = 39`, but `VirtAddr::from` (os/src/mm/address.rs:33-37) masks with the 56-bit physical width. The model follows the code. The finding below records the difference and proves the 39-bit version.

## Findings

| source | as written | input that shows it | evidently intended | confidence | as-written member | corrected member |
|---|---|---|---|---|---|---|
| os/src/mm/address.rs:33-37 | `VirtAddr::from(usize)` masks with `PA_WIDTH_SV39` (56 bits) | x = 2^39: the address keeps bit 39, and its page number is 2^27, outside the 27-bit page-number width | mask with `VA_WIDTH_SV39` (39 bits), declared at line 6 | medium, not executed | `Address.VirtAddrFromUsizeExceedsSv39` | `Address.VirtAddrFromUsizeSv39InWidth` |

`Address.VirtAddrFromUsize` models the code as written and
`Address.VirtAddrFromUsizeSv39` is the corrected mask. No other part of the
model builds virtual addresses, so nothing else depends on the choice.
