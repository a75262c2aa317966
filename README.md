# farfetch, modelled in Dafny

`farfetch` (user/module/farfetch/farfetch.c:17-127) is a system call installed by a kernel
module. It moves up to `len` bytes between the caller's buffer and the memory of another
process, one page at a time:

1. It clamps the request so that neither the page count nor the return value can overflow.
2. It checks that the caller is root.
3. It takes a reference on the target's address space (mm).
4. It allocates a page list and takes the mmap read lock.
5. It pins the target pages, then drops the lock and the mm reference.
6. It copies the pinned pages chunk by chunk, in the direction `cmd` names.
7. It puts every pinned page and frees the page list.

The model has four modules:

- `PageMath` holds the platform constants and the pure page arithmetic:
  - the normalisation of lines 29 and 36-37;
  - the shrink to the pinned pages at lines 82-86;
  - the chunk each iteration of the copy loop moves.
- `Memory` models the target's memory as a map from virtual page number to page bytes. It defines
  the byte-range read and write the loop performs, and proves that a write followed by a read of
  the same range gives back the data.
- `Outcome` states what one call does, as functions of its inputs and of the answers the kernel
  services give (the `Env` datatype):
  - the return value (`Expected`);
  - the page where the copy loop stops (`StopPage`);
  - the bytes moved (`Copied`);
  - the acquisitions and releases, in order (`Trace`).

  It also holds the lemmas about those functions, and `Replay`, which checks a trace against
  what is held.
- `Farfetch` is the routine itself, imperative, in class `Kernel`:
  - The class's fields are the target's pages, their dirty marks, and counters for mm
    references, page lists, read locks and pins, plus a ghost log of events.
  - The caller's buffer is an `array<bv8>`, and the page list is an `array<nat>` that the pin
    call fills in place.
  - The kernel services are methods. Their effect on the state is stated; their answers come
    from `Env`.
  - `Farfetch` is split along the routine's nesting, one method per stage after each gate:
    `WithMm`, `PinAndCopy`, `CopyAndRelease`, `CopyPages` (the copy loop) and `PutPages` (the
    release loop).
  - Each method is proved against the `Outcome` functions.
  - The predicate `Moved` states what the transfer did to the pages, the dirty set and the buffer.

The `WARN_ON`s at lines 38, 84 and 120 become assertions that the model proves, with one
exception. The check at line 84 fails when no page is pinned and page_off > 0 (see Findings),
and the model uses the corrected shrink there.

The code does not release in reverse order of acquisition: it drops the mm reference at line
76, before the pages are put at lines 122-123. The model follows the code: `PinTrace` logs
`Mmput` before the `PutPage` events.

## Model

| member | source | states |
|---|---|---|
| PageMath.Min3 | user/module/farfetch/farfetch.c:36 | min3 is at most each argument and equals one of them |
| PageMath.OverflowMargin | user/module/farfetch/farfetch.c:36 | SIZE_MAX - page_off - PAGE_SIZE + 1 is the largest length for which page_off + len + PAGE_SIZE - 1 does not wrap |
| PageMath.PageOffset | user/module/farfetch/farfetch.c:29 | page_off is below PAGE_SIZE and splits the address into page number and offset |
| PageMath.PageCount | user/module/farfetch/farfetch.c:37 | nr_pages is the ceiling of (page_off + len) / PAGE_SIZE: enough pages for the bytes, and not one more |
| PageMath.Normalize | user/module/farfetch/farfetch.c:29-38 | the clamped len is at most the request, MAX_RW_COUNT and the overflow margin, and equals one of them; the page-count sum does not exceed SIZE_MAX; nr_pages * PAGE_SIZE >= len (line 38 never fires); the pages cover exactly the bytes |
| PageMath.AsLong | user/module/farfetch/farfetch.c:126 | a size_t returned as long is the one value in the range of a 64-bit long that is congruent to it modulo 2^64 |
| PageMath.Shrink | user/module/farfetch/farfetch.c:82-86 | with ret of nr_pages pinned: all pinned leaves the span alone; 1 <= ret < nr_pages gives len = ret * PAGE_SIZE - page_off, strictly less than before (line 84 never fires); no page pinned gives len 0; the pages still cover the bytes |
| PageMath.ShrinkAsWritten | user/module/farfetch/farfetch.c:82-86 | the recomputation in size_t arithmetic: ret * PAGE_SIZE - page_off when that is not negative, otherwise that value plus 2^64 |
| PageMath.ShrinkAgrees | user/module/farfetch/farfetch.c:82-86 | the code as written agrees with the corrected shrink whenever at least one page was pinned or page_off is 0 |
| PageMath.ZeroPinWraps | user/module/farfetch/farfetch.c:82-86 | for address 4097 and length 100 with no page pinned, the recomputed len wraps to SIZE_MAX, exceeds the old len, and reads as -1 once returned as long |
| PageMath.ChunkStart | user/module/farfetch/farfetch.c:89-118 | the cursor iter - addr before page i never passes len |
| PageMath.ChunkLen | user/module/farfetch/farfetch.c:91 | to_copy for page i advances the cursor from page i's start to page i + 1's start and stays inside the page |
| PageMath.InnerChunksAreFull | user/module/farfetch/farfetch.c:91 | every chunk but the last runs to the end of its page |
| PageMath.ThreePageChunks | user/module/farfetch/farfetch.c:90-117 | three pages from a nonzero offset are copied as PAGE_SIZE - page_off, then PAGE_SIZE, then the nonzero remainder |
| PageMath.ChunksCoverSpan | user/module/farfetch/farfetch.c:120 | after the last page the cursor has advanced by exactly len, so line 120 never fires on success |
| PageMath.ChunkAddress | user/module/farfetch/farfetch.c:99-117 | a nonempty chunk i starts at offset ChunkOffset of the i-th page after the first one |
| PageMath.ChunkStartMonotone | user/module/farfetch/farfetch.c:118 | the cursor never moves backwards |
| Memory.AddressSplit | user/module/farfetch/farfetch.c:29 | an address is page number times PAGE_SIZE plus offset, and only that |
| Memory.ByteAtWrite | user/module/farfetch/farfetch.c:105 | a write changes exactly the bytes it covers in resident pages |
| Memory.ReadAfterWrite | user/module/farfetch/farfetch.c:99-110 | reading back a range just written over resident pages returns the bytes written |
| Memory.ReadElsewhere | user/module/farfetch/farfetch.c:104-110 | a write leaves every range it does not overlap unchanged |
| Memory.WriteNothing | user/module/farfetch/farfetch.c:105 | a write of no bytes changes nothing |
| Memory.ReadStep | user/module/farfetch/farfetch.c:99-103 | copying one more chunk from page v at offset po extends what was read by that slice of the page |
| Memory.ReadRange | user/module/farfetch/farfetch.c:100 | the bytes a read takes from the target: n bytes, the j-th at address addr + j (a definition; its contract states only the length) |
| Memory.WriteRange | user/module/farfetch/farfetch.c:105 | the target after a write: the same resident pages, each the same size, with the written bytes laid over them (a definition; its contract states only that no page appears, disappears or changes size) |
| Memory.WriteStep | user/module/farfetch/farfetch.c:104-110 | writing one more chunk into page v at offset po patches that slice of page v and nothing else |
| Outcome.PinSet | user/module/farfetch/farfetch.c:71-73 | pinning n pages from vpn adds n pins, one of them on vpn when n > 0 |
| Outcome.PinSetPages | user/module/farfetch/farfetch.c:71-73 | the pins are exactly one on each page vpn .. vpn + n - 1 |
| Outcome.PageRange | user/module/farfetch/farfetch.c:108 | the pages marked dirty after stop pages are exactly vpn .. vpn + stop - 1 |
| Outcome.Puts | user/module/farfetch/farfetch.c:122-123 | the release loop issues one put_page per pinned page |
| Outcome.PutsPages | user/module/farfetch/farfetch.c:122-123 | the k-th put_page is on page vpn + k, the k-th page of the list |
| Outcome.PutsSnoc | user/module/farfetch/farfetch.c:122-123 | one more iteration of the release loop appends the put of the next page |
| Outcome.FirstFault | user/module/farfetch/farfetch.c:90-115 | the loop stops at the first chunk whose copy faults: none before it faults, it does unless it is the end |
| Outcome.IsErrValue | user/module/farfetch/farfetch.c:77 | IS_ERR_VALUE: the last MAX_ERRNO values of the word, read as -MAX_ERRNO .. -1 (a definition) |
| Outcome.Step | user/module/farfetch/farfetch.c:43-124 | one acquisition or release applied to what is held; None when it releases what is not held or pins without the lock (a definition; StepFails states when it fails) |
| Outcome.StepFails | user/module/farfetch/farfetch.c:43-124 | an event is refused exactly when it drops an mm reference, page list or lock not held, pins without the lock, or puts a page without a pin; acquisitions always succeed |
| Outcome.Replay | user/module/farfetch/farfetch.c:43-124 | the events applied in order, None as soon as one is refused (a definition; ReplayMm and TraceBalanced state its properties) |
| Outcome.ReplayMm | user/module/farfetch/farfetch.c:49-76 | after a valid sequence of events the mm references are those at the start plus the get_task_mm and minus the mmput events |
| Outcome.StopAt | user/module/farfetch/farfetch.c:90-115 | the stop page is never past the pinned pages |
| Outcome.PinnedSpan | user/module/farfetch/farfetch.c:82-86 | the loop's range starts at page_off, has one page per pinned page, and is no longer than the normalised request |
| Outcome.StopPage | user/module/farfetch/farfetch.c:88-119 | the page where the copy stops is within the pinned pages |
| Outcome.Copied | user/module/farfetch/farfetch.c:88-119 | the bytes moved never exceed the pinned range's length |
| Outcome.SpanStop | user/module/farfetch/farfetch.c:88-119 | StopPage for an already normalised span is within the pinned pages |
| Outcome.SpanCopied | user/module/farfetch/farfetch.c:88-119 | Copied for an already normalised span is at most the shrunk length |
| Outcome.LoopResult | user/module/farfetch/farfetch.c:114-126 | after the copy loop the call returns len exactly when the loop reached the last page; -EINVAL exactly for an unknown command with at least one page; -EFAULT only when the stop chunk faults |
| Outcome.SpanResult | user/module/farfetch/farfetch.c:40-126 | on a normalised span, the result is an IS_ERR_VALUE error, or the gates all passed, the pages were pinned and it is the shrunk len |
| Outcome.Expected | user/module/farfetch/farfetch.c:29-126 | the value the call returns: -EPERM for a non-root caller; a non-negative result never exceeds the request or MAX_RW_COUNT |
| Outcome.Trace | user/module/farfetch/farfetch.c:40-124 | the acquisitions and releases of a call, in order (a definition; TraceShape and TraceBalanced state its properties) |
| Outcome.MmTrace | user/module/farfetch/farfetch.c:54-124 | the events after get_task_mm: mmput alone when kmalloc_array fails; allocate, mmput, kfree when the lock is interrupted; else PinnedTrace (a definition) |
| Outcome.PinnedTrace | user/module/farfetch/farfetch.c:54-124 | the events from the allocation on for a call that reaches the pin: allocate, lock, then PinTrace (a definition) |
| Outcome.PinTrace | user/module/farfetch/farfetch.c:71-124 | the events from the pin on: pin, unlock unless the pin call dropped the lock, mmput, one put_page per pinned page, kfree (a definition; PinTraceShape states its shape) |
| Outcome.PutsOnlyPut | user/module/farfetch/farfetch.c:122-123 | the release loop issues nothing but put_page |
| Outcome.PinTraceShape | user/module/farfetch/farfetch.c:71-124 | from the pin on: the pin first, the kfree last, the unlock present exactly when `locked` stayed set, an mmput, and k + 3 or k + 4 events in all |
| Outcome.TraceShape | user/module/farfetch/farfetch.c:40-124 | a call does nothing exactly when it is refused or finds no mm; otherwise it starts with get_task_mm, always does an mmput, and ends with the kfree when the page list was allocated and with the mmput when it was not |
| Outcome.ReplayPuts | user/module/farfetch/farfetch.c:122-123 | putting pages vpn .. vpn + n - 1 releases exactly their pins |
| Outcome.ReleaseBalanced | user/module/farfetch/farfetch.c:122-124 | the release loop and kfree give back every pin and the page list |
| Outcome.PinTraceBalanced | user/module/farfetch/farfetch.c:71-126 | from the pin on, the lock is released once, by get_user_pages_remote or by line 75; the mm reference, every pin and the page list are given back too |
| Outcome.PinnedTraceBalanced | user/module/farfetch/farfetch.c:54-126 | a call that reaches the pin releases everything it took from the allocation on, plus the mm reference it came in with |
| Outcome.TraceBalanced | user/module/farfetch/farfetch.c:40-126 | on every path, replaying the call's events from any holdings never releases what is not held, pins only under the lock, and ends with exactly what it started with |
| Outcome.NoFaultRunsToEnd | user/module/farfetch/farfetch.c:90-119 | with no faulting page and a buffer as long as the span, the loop runs to the last page |
| Outcome.FirstFaultWithinBuffer | user/module/farfetch/farfetch.c:91-118 | the loop never stops past the end of the caller's buffer |
| Outcome.CopiedWithinBuffer | user/module/farfetch/farfetch.c:88-119 | the bytes a call moves all lie inside the caller's buffer |
| Outcome.EarlyExitMovesNothing | user/module/farfetch/farfetch.c:40-80 | a call that fails before the copy loop stops at page 0 and moves no byte |
| Outcome.PermissionFirst | user/module/farfetch/farfetch.c:40-41 | a non-root caller gets -EPERM whatever the pid, with no event and nothing copied |
| Outcome.EarlyFailures | user/module/farfetch/farfetch.c:43-80 | no task or mm gives -ESRCH with nothing taken; a failed allocation gives -ENOMEM after mmput; an interrupted lock gives -EINTR after mmput and kfree; a pin error returns that error after the conditional unlock, mmput and kfree |
| Outcome.ReturnIsCountOrErrno | user/module/farfetch/farfetch.c:77-126 | the result is an error in [-MAX_ERRNO, -1], or the whole pinned length copied, which is at most the request and MAX_RW_COUNT, never a partial count |
| Outcome.PartialPinLength | user/module/farfetch/farfetch.c:82-126 | when 1 <= K < N pages are pinned and nothing faults, the call returns K * PAGE_SIZE - page_off, less than the normalised length |
| Outcome.ZeroLengthRequest | user/module/farfetch/farfetch.c:36-126 | a zero-length request off a page boundary still pins one page and returns 0, or -EINVAL for an unknown command |
| Outcome.UnknownCommand | user/module/farfetch/farfetch.c:111-126 | an unknown command is noticed only inside the loop: -EINVAL when a page was pinned, 0 when none was, nothing copied either way |
| Outcome.FaultReportsNoBytes | user/module/farfetch/farfetch.c:99-126 | a fault at any pinned page makes the call return -EFAULT and move nothing past that page |
| Farfetch.CopyToUser | user/module/farfetch/farfetch.c:100-101 | copy_to_user succeeds exactly when the copy is empty or does not fault; it writes src at the cursor and nothing else; a fault leaves the buffer unchanged |
| Farfetch.Moved | user/module/farfetch/farfetch.c:99-110 | what a transfer that moved m bytes and stopped at page `stop` did: a read fills the first m bytes of the buffer with the target's bytes and changes nothing else; a write stores the first m bytes of the buffer into the target and marks pages 0 .. stop - 1 dirty; an unknown command changes nothing (a definition) |
| Farfetch.PinnedMapped | user/module/farfetch/farfetch.c:71-86 | every byte of the range the copy loop works on lies in a pinned page |
| Farfetch.WriteMovesChunk | user/module/farfetch/farfetch.c:104-108 | writing the next chunk into its page and marking the page dirty extends the write-so-far by one chunk and one dirty page |
| Farfetch.Kernel.GetTaskMm | user/module/farfetch/farfetch.c:43-52 | one mm reference is held exactly when the task and its mm are found |
| Farfetch.Kernel.KmallocArray | user/module/farfetch/farfetch.c:54-58 | a fresh page list of nr_pages entries, or null and nothing allocated |
| Farfetch.Kernel.MmapReadLockKillable | user/module/farfetch/farfetch.c:66-70 | the lock is held exactly when the wait is not interrupted |
| Farfetch.Kernel.Mmput | user/module/farfetch/farfetch.c:76 | mmput drops one mm reference and logs it (also at lines 56 and 67) |
| Farfetch.Kernel.Kfree | user/module/farfetch/farfetch.c:124 | kfree frees one page list and logs it (also at lines 68 and 78) |
| Farfetch.Kernel.MmapReadUnlock | user/module/farfetch/farfetch.c:75 | the read lock is released once and the release logged |
| Farfetch.Kernel.PutPage | user/module/farfetch/farfetch.c:123 | put_page drops one pin and logs the page it was on |
| Farfetch.Kernel.SetPageDirtyLock | user/module/farfetch/farfetch.c:108 | the page is added to the dirty set, nothing else changes |
| Farfetch.Kernel.GetUserPagesRemote | user/module/farfetch/farfetch.c:71-73 | an error or a count of pinned pages, the page list filled with those pages in order, and the lock kept or dropped as `locked` says |
| Farfetch.Kernel.CopyFromUser | user/module/farfetch/farfetch.c:105-106 | copy_from_user succeeds exactly when the copy is empty or does not fault; on success it patches that slice of the page and nothing else |
| Farfetch.Kernel.ReadChunk | user/module/farfetch/farfetch.c:99-103 | one FAR_READ iteration returns -EFAULT exactly when its chunk faults; otherwise the buffer holds the target's bytes one chunk further |
| Farfetch.Kernel.WriteChunk | user/module/farfetch/farfetch.c:104-110 | one FAR_WRITE iteration returns -EFAULT exactly when its chunk faults; otherwise the target holds the buffer's bytes one chunk further and the page is dirty |
| Farfetch.Kernel.CopyChunk | user/module/farfetch/farfetch.c:91-115 | one iteration: -EINVAL for an unknown command, -EFAULT for a faulting chunk, else one more chunk moved |
| Farfetch.Kernel.CopyPages | user/module/farfetch/farfetch.c:88-120 | the copy loop stops at StopAt with -EINVAL or -EFAULT, or runs to the end with the cursor at len; it moved exactly the chunks before the stop page, and a write adds exactly the pages before the stop page to the dirty set |
| Farfetch.Kernel.PutPages | user/module/farfetch/farfetch.c:122-123 | the release loop puts each pinned page once, in list order |
| Farfetch.Kernel.CopyAndRelease | user/module/farfetch/farfetch.c:82-126 | after the shrink, the copy and the release, the result is the loop's error or the shrunk len; every pin and the page list are given back |
| Farfetch.Kernel.PinAndCopy | user/module/farfetch/farfetch.c:71-126 | from the pin on, the events are PinTrace: a pin error returns that error having moved nothing; otherwise the result and the transfer are the copy loop's over the shrunk span |
| Farfetch.Kernel.WithMm | user/module/farfetch/farfetch.c:54-126 | with the mm held: -ENOMEM or -EINTR with the matching releases, else the pinned transfer; the mm reference is dropped on every path |
| Farfetch.WriteThenRead | user/module/farfetch/farfetch.c:17-127 | a write call and then a read call on the same range under the same kernel answers: when the write succeeds the target holds the written bytes; when both succeed they move the same count and the read returns exactly what was written |
| Farfetch.Kernel.Farfetch | user/module/farfetch/farfetch.c:17-127 | the call returns Expected, logs Trace, moves exactly Copied bytes up to StopPage as Moved states, and leaves the references, allocations, locks and pins as it found them |

## Left out

- `farfetch_init` and `farfetch_exit` (lines 129-140) are left out. They only assign the global hook pointer and log with `pr_info`.
- The pid, task and mm lookups and their reference counting are collapsed into one `Lookup` answer and an mm reference counter. A missing task and a task without an mm both give -ESRCH with nothing held, as in the code.
- `get_user_pages_remote` is an oracle answering an error or a count of at most nr_pages. Its fault retry and the meaning of `FOLL_FORCE` are left out. The write flag is recorded in the `Pin` event.
- Pinned pages are assumed to be resident pages of the target. A precondition says the pinned page numbers are in `frames`.
- Distinct virtual pages are assumed to be distinct physical pages. The model does not capture aliasing between target pages.
- Farfetch.Kernel.Farfetch, Farfetch.Moved: a call on the caller's own pid is not modelled. Root may target itself (lines 43-52), and then the caller's buffer lies inside the target's memory. The model keeps the buffer (`buf`) and the target's pages (`frames`) apart, so over an overlapping range it does not capture that a read or write also changes the other side.
- The pin counter is a number. Which pages are pinned and put is recorded in the event trace and checked by `Replay`.
- Blocking on the mmap lock and concurrent access to the target's memory are left out. The lock is a reader count, and interruption is an input.
- `kmap`/`kunmap` are left out, because on the modelled platform the page is addressed directly.
- Faults inside `copy_to_user`/`copy_from_user` are a set of faulting page indices, plus the end of the caller's buffer. A faulting copy moves nothing. The partial copy a real fault can leave inside the faulting chunk is left out.
- The numeric values of `FAR_READ` and `FAR_WRITE` are left out: include/linux/farfetch.h is not part of this model. `Command` has one case for each, and one for any other value.
- `PAGE_SIZE` is fixed at 4096 and `SIZE_MAX` at 2^64 - 1, as on x86-64. The mask `target_addr & ~PAGE_MASK` is written as the remainder modulo `PAGE_SIZE`, which is the same for a power of two.
- The effective-uid check is an input `euid`; user namespaces are left out.
- The caller's buffer address is the start of the `buf` array. The cursor `iter` is an index into it.

## Findings

| source | as written | input that shows it | evidently intended | confidence | as-written member | corrected member |
|---|---|---|---|---|---|---|
| user/module/farfetch/farfetch.c:82-86 | when `get_user_pages_remote` pins 0 of nr_pages >= 1 pages, `len = nr_pages * PAGE_SIZE - page_off` is computed in size_t and wraps for page_off > 0; the `WARN_ON` at line 84 fires, and with no page to copy the call returns that len, which is -page_off as a long | target_addr 4097, len 100, 0 pages pinned: len becomes SIZE_MAX and the call returns -1, which a caller reads as -EPERM | with no page pinned, len is 0 and the call returns 0 | not executed | PageMath.ZeroPinWraps | PageMath.Shrink |
