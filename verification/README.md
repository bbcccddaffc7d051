# mypipe ring-buffer pipe, in Dafny

This project models the pipe character device of `pipe.c`. One `struct pipe` holds:

- a ring buffer allocated on open;
- a read pointer, a write pointer and a count of buffered bytes;
- the buffer size;
- the numbers of reader and writer sessions.

Four file operations act on it: `pipe_open`, `pipe_read`, `pipe_write` and `pipe_release`. Each call's ring logic runs under the pipe's mutex, so the model treats each call as one atomic step. The read and write calls drop the mutex before returning EAGAIN or sleeping, and wake the other side after unlocking; a call that would sleep is the outcome `Blocked`. A step takes an immutable `Pipe` value and returns a status and the new `Pipe`.

The environment of a call becomes explicit parameters:

- `interrupted`: whether `mutex_lock_interruptible` was interrupted.
- `allocOk`: whether `kzalloc` succeeded.
- `UserCopy`: whether the first or second `copy_to_user` / `copy_from_user` call fails.
- `nonblock`: the file's `O_NONBLOCK` flag.
- `pipeSize`: the module parameter.

Sleeping on a wait queue is the outcome `Blocked`, with the state unchanged.

The operations are modelled as written, defects included (module `PipeOps`):

- `pipe_write` clamps to the bytes already buffered, not to the free space.
- Its two-segment branch sets the write pointer to the length of the bottom segment, which is 0 when there is none.
- Its contiguous branch never wraps the write pointer.
- `pipe_read`'s two-segment branch, taken when readp >= writep, sets the read pointer to the length of the bottom segment, which is 0 when there is none.

pipe.c checks none of the copy bounds. `PipeOps.ReadInBounds` and `PipeOps.WriteInBounds` state the bounds the copies rely on. They are requirements on the caller of a call that is not interrupted; an interrupted call returns before any copy and needs no bounds. A copy of zero bytes touches no memory, so it is in bounds even with no buffer. A read on a consistent ring always meets its bounds (`Divergence.ReadAgainstFixed`). A write does not: on a consistent ring with writep < readp, the count clamp can carry the copy past the end of the buffer (`Divergence.WrappedWriteInBounds`, and the Findings below).

Modules:

- `PipeState`: the state, statuses, errors, modes, the user-copy oracle, and buffer slicing.
- `PipeOps`: the four operations.
- `PipeTrace`: runs of operations from the state the module leaves a pipe in at load time. Because open zeroes the count and write clamps to the count, no run ever buffers a byte.
- `FixedRing`: the ring as pipe.c evidently intends it, used as the reference. It has a consistency predicate `Valid` and the unread bytes `Contents`. Its read and write are proved to behave as a FIFO queue.
- `Divergence`: all-inputs lemmas that say where pipe.c agrees with the reference and where it leaves a consistent ring.

On a consistent ring with unread bytes, the pointer order says where those bytes lie:

- readp < writep: the unread bytes end before the end of the buffer.
- readp >= writep: they reach the end of the buffer or run past it. This includes a full ring.
- writep < readp: they run past the end, so the free space is the single stretch from writep to readp. A *wrapped ring* means this case below.
- `Scenarios`: concrete runs on an 8-byte pipe.

A FIFO pipe is expected to do three things that pipe.c does differently. The model follows the code:

- A write should be clamped to the free space. pipe.c clamps to the bytes already buffered. The free-space clamp appears only in `FixedRing`.
- Both pointers should stay in `[0, size)`. pipe.c can leave writep at `size` (`Scenarios.WriteOverrunsUnread`).
- The buffer should be freed on the last close. pipe.c frees it whenever the two session counts sum to 0 after a release. This includes a release of a session opened with neither mode while other such sessions still hold the pipe.

## Model

| member | source | states |
|---|---|---|
| PipeOps.Open | pipe.c:68-104 | Interruption gives ERESTARTSYS and allocation failure on a pipe without a buffer gives ENOMEM, both with no change. Success keeps an existing buffer or allocates a zero-filled one of `pipeSize`. It always resets size, readp, writep and count to (pipeSize, 0, 0, 0) and adds one reader and/or one writer per mode. |
| PipeOps.Release | pipe.c:265-284 | Returns 0 and removes one reader and/or one writer per mode. Frees the buffer exactly when the sum of the two counts reaches 0, otherwise keeps it. Leaves readp, writep, count and size untouched. |
| PipeOps.Read | pipe.c:107-185 | ERESTARTSYS exactly when interrupted, and an interrupted read needs no bounds. An empty pipe gives EAGAIN to a non-blocking caller and sleeps a blocking one, with nothing changed. On a non-empty pipe the result is success or EFAULT, and EFAULT exactly when a copy that moves bytes faults: the single copy when readp < writep, otherwise the top copy to the end of the buffer or a non-empty bottom copy from 0. A fault changes nothing. On success it delivers n = min(requested, count) bytes (n > 0 when anything is requested) and lowers count by n. Bytes come from readp on when readp < writep; otherwise the top bytes come from readp to the end and the rest from 0. readp then advances (reset at the end of the buffer) or becomes the bottom length, which is 0 when no bottom segment was copied. The buffer and writep are unchanged. |
| PipeOps.Write | pipe.c:188-262 | ERESTARTSYS exactly when interrupted. A full pipe gives EAGAIN or sleeps, with nothing changed. On a pipe that is not full the result is success or EFAULT, and EFAULT exactly when a copy that moves bytes faults: the top or a non-empty bottom copy when readp < writep, otherwise the single copy. On success it stores n = min(requested, count) bytes, clamped to the bytes already buffered, and raises count by n. When readp < writep the bytes are split at the end of the buffer and writep becomes the bottom length, with or without a buffer. Otherwise they go contiguously from writep, which advances without wrapping. No byte outside the written range changes. A fault changes no pointer or counter, and only first-segment bytes may differ. When readp < writep and the fault is in the bottom copy, the top segment holds the first bytes of the request. Interrupted, it needs no bounds. |
| PipeOps.WriteTwoSegments | pipe.c:222-244 | The branch taken when readp < writep. It fails with EFAULT exactly when the top copy or a non-empty bottom copy faults; a bottom fault leaves the top segment holding the first bytes of the request and moves no pointer. On success it stores the first bytes from writep to the end of the buffer and the rest from 0, and sets writep to the bottom length, with or without a buffer. |
| PipeOps.WriteOneSegment | pipe.c:245-253 | The branch taken when readp >= writep. It fails with EFAULT, changing nothing, exactly when its non-empty copy faults. On success it stores the bytes from writep on and advances writep by their number, without wrapping. |
| PipeTrace.Run | pipe.c:68-262 | From a state with nothing buffered and both pointers at 0, any sequence of opens, reads, writes and releases stays in such a state. Every copy stays in bounds, no read succeeds, and every successful write reports 0 bytes. |
| PipeTrace.NothingIsEverBuffered | pipe.c:219-220 | From the zero-filled state of module load, count is 0 after any run. No read ever returns data, and every successful write returns 0. |
| PipeTrace.OpenThenRelease | pipe.c:93-99 | A successful open followed by a release with the same mode restores both session counts. It frees the buffer exactly when the pipe had no session before the open, and leaves the ring reset. |
| FixedRing.FixedRead | pipe.c:139-177 | The reference read, with readp wrapping. On a consistent ring it keeps the ring consistent and delivers min(requested, count) bytes, lowering count by as many. It leaves the buffer and writep alone. Its error outcomes are those of pipe_read: on a non-empty ring, EFAULT exactly when the top copy from readp or a non-empty bottom copy from 0 faults, success otherwise. |
| FixedRing.FixedReadTakesOldest | pipe.c:143-173 | The bytes the reference read delivers are the oldest unread ones, in order, and exactly those leave the ring. |
| FixedRing.FixedWrite | pipe.c:219-255 | The reference write. It clamps to the free space and wraps writep. On a ring that is not full it gives success or EFAULT, and EFAULT exactly when the copy from writep to the end of the buffer or a non-empty copy of the rest to 0 faults. On a consistent ring it keeps the ring consistent and stores min(requested, size - count) bytes, raising count by as many. A failed write changes no pointer or counter. |
| FixedRing.FixedWriteAppends | pipe.c:222-253 | The bytes the reference write stores follow the unread ones in ring order. A fault or EAGAIN leaves the unread bytes as they were. |
| FixedRing.FixedRoundTrip | pipe.c:139-255 | On the reference ring, bytes written into an empty ring, at most its size, come back unchanged and in order from a read of the same length. |
| Divergence.ReadAgainstFixed | pipe.c:143-173 | On every consistent ring, pipe_read copies in bounds. It reports the reference's status and count and delivers the oldest unread bytes. Its new state differs from the reference's exactly when the read succeeds, readp >= writep, and readp + n lies strictly between 0 and the end of the buffer. That state is then inconsistent. The case arises whenever the unread bytes reach the end of the buffer, a full ring included, and the read stops short of that end. |
| Divergence.WriteAgreesOnWrappedRing | pipe.c:245-253 | On a consistent ring with writep < readp, a write that fits both the buffered count and the free space equals the reference write. |
| Divergence.WrappedWriteInBounds | pipe.c:245-248 | On a consistent ring with writep < readp, pipe_write's single copy stays in the buffer exactly when writep plus min(requested, count) is at most the size. The count clamp (pipe.c:219-220) lets it run past; the reference's free-space clamp always ends at or before readp. |
| Divergence.SplitBranchAgreesWhenReachingEnd | pipe.c:222-244 | On a consistent ring with readp < writep, a write that fits both clamps and reaches the end of the buffer equals the reference write. The two-segment branch is the right one for this case, since the free space runs from writep to the end and then from 0 to readp. |
| Divergence.WriteLosesPlace | pipe.c:222-244 | On a consistent ring with readp < writep, a successful write that ends before the end of the buffer sets writep to 0, not past the stored bytes, and leaves the ring inconsistent. |
| Divergence.OpenGivesEmptyRing | pipe.c:79-91 | Every successful open leaves a consistent ring with no unread bytes. |
| Divergence.WriteAfterOpenStoresNothing | pipe.c:219-220 | Right after a successful open, pipe_write with any bytes reports 0 and changes nothing, and a following read finds the pipe empty. The reference write stores min(requested, size) bytes. |
| Scenarios.FixedWalkThrough | pipe.c:139-255 | On the reference ring of size 8: write 1..5, read [1,2,3], write 6..11. All six fit, writep wraps to 3, the ring is full with 4..11 unread, and a non-blocking write gets EAGAIN. |
| Scenarios.AsWrittenWalkThrough | pipe.c:219-220 | The same walk-through on pipe.c: the first write returns 0 with nothing stored, and the non-blocking read gets EAGAIN. |
| Scenarios.ReadTwiceFromFull | pipe.c:173 | From a full 8-byte ring with both pointers at 0, pipe_read of one byte delivers byte 0 and leaves readp at 0, where the reference moves it to 1. A second one-byte read delivers byte 0 again. |
| Scenarios.WriteResetsPointer | pipe.c:222-244 | With unread bytes at 3..4 and writep 5, pipe_write of two bytes stores them at 5 and 6 but sets writep to 0, where the reference sets 7. |
| Scenarios.SplitWriteWraps | pipe.c:222-244 | With unread bytes at 2..5 and writep 6, pipe_write of three bytes stores them at 6, 7 and 0, moves writep to 1 and leaves a consistent ring, exactly as the reference does. |
| Scenarios.WriteRunsPastBuffer | pipe.c:245-248 | On the consistent 8-byte ring with readp 7, writep 6 and count 7, a 3-byte write is out of bounds: its copy would cover 6, 7 and 8. The same write interrupted gives ERESTARTSYS with nothing changed. The reference stores one byte and fills the ring. |
| Scenarios.WriteOverrunsUnread | pipe.c:245-252 | With seven unread bytes and one free, pipe_write accepts seven bytes. It overwrites unread bytes, leaves writep at 8, one past an 8-byte buffer, and records 14 bytes. The reference accepts one. |

## Left out

- Concurrency is not modelled: the wait queues, `wait_event_interruptible`, `wake_up_interruptible`, and the re-check loops after a wake-up. A call that would sleep is the outcome `Blocked`. Being interrupted while asleep, or while re-taking the lock after a wake-up, is not modelled. Writers sleep on `p_readq` (pipe.c:210) while readers wake `p_writeq` (pipe.c:180); this wait-queue mismatch is a concurrency defect and lies outside this sequential model.
- `copy_to_user` / `copy_from_user` are foreign kernel calls and become the `UserCopy` oracle. The bytes a faulting copy leaves in the caller's buffer are not modelled.
- PipeOps.Write: a `copy_from_user` that faults part-way leaves its own destination segment unchanged in the model. In the kernel, the bytes copied before the fault and the zero padding after it reach the ring. The bytes of a first segment copied before a faulting second copy are modelled.
- Module init and exit (pipe.c:296-372) are not modelled: `register_chrdev_region`, `alloc_chrdev_region`, `cdev_*` and the `pipes` array. The array's zero fill appears only as the starting state `PipeState.Initial`.
- `module_param` handling is not modelled. The buffer size is a parameter `pipeSize > 0`; a zero or negative module parameter is not modelled.
- `nonseekable_open`, `no_llseek`, `container_of` and `private_data` are kernel plumbing with no effect on the ring.
- `kzalloc` / `kfree` are reduced to "a zero-filled buffer or failure" and "the buffer becomes absent".
- The C fields are 32-bit `int` and the request is a `size_t`. The model uses unbounded integers. It leaves out the sign conversions pipe.c would apply if `p_count` were negative or `p_readp` / `p_writep` exceeded `p_size`. The in-bounds requirements exclude those states, and also the consistent-ring writes whose copy would run past the buffer (Findings, pipe.c:246-248). The C makes no such check.

## Findings

| source | as written | input that shows it | evidently intended | confidence | as-written member | corrected member |
|---|---|---|---|---|---|---|
| pipe.c:219-220 | a write is clamped to `p_count`, the bytes already buffered | open an 8-byte pipe, write [1,2,3,4,5]: returns 0, nothing stored; every later read finds the pipe empty | clamp to the free space `p_size - p_count` | high; not executed | Divergence.WriteAfterOpenStoresNothing | FixedRing.FixedWrite |
| pipe.c:244 | the two-segment write sets `p_writep = count - topcount`, which is 0 when the write ends before the end of the buffer; this is the write-side twin of pipe.c:173 | size 8, readp 3, writep 5, count 2; write [6,7]: bytes go to 5 and 6 but writep becomes 0 | writep advances by the bytes written and wraps at the end, here to 7 | high; not executed (latent: the clamp above keeps count at 0) | Scenarios.WriteResetsPointer | FixedRing.FixedWrite |
| pipe.c:245-252 | the contiguous write branch advances `p_writep` without wrapping or bounding it | size 8, readp 2, writep 1, count 7; write seven bytes: all accepted, unread bytes overwritten, writep 8, count 14 | writep wraps to 0 at the end; with the free-space clamp only one byte is accepted | high; not executed (latent: the clamp above keeps count at 0) | Scenarios.WriteOverrunsUnread | FixedRing.FixedWrite |
| pipe.c:246-248 | on a consistent ring with writep < readp, the single `copy_from_user` at `p_rbuf + p_writep` is bounded only by the count clamp, so it can run past the end of `p_rbuf` | size 8, readp 7, writep 6, count 7 (a consistent ring); write 3 bytes: the copy covers bytes 6..8 of an 8-byte buffer | clamp to the free space, which on a wrapped ring ends at readp | high; not executed (latent: the clamp above keeps count at 0) | Divergence.WrappedWriteInBounds | FixedRing.FixedWrite |
| pipe.c:173 | the two-segment read, taken whenever readp >= writep, sets `p_readp = count - topcount`, which is 0 when the read ends before the end of the buffer; this includes every ring whose unread bytes end exactly at the end of the buffer, and a full ring | full 8-byte ring, readp 0; read 1 byte twice: byte 0 is delivered both times | readp advances by the bytes read and wraps at the end | high; not executed (latent: the clamp above keeps count at 0) | Divergence.ReadAgainstFixed | FixedRing.FixedRead |
