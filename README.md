# Static ring buffer (buffer.h) in Dafny

This project models the fixed-capacity circular byte FIFO of `buffer.h`:
a `ring_buffer_t` holding a 1024-slot `char` array, a write cursor `head`
and a read cursor `tail`. One slot is always left unused, so `head == tail`
means empty and "the slot after `head` is `tail`" means full.

- `ring_math.dfy` (module `RingMath`): the capacity `N = 1024`, `size_t`
  values (`SizeT`) and their wrap-around modulo 2^64, the mask, the kernel
  `min`, `ring_buffer_space_used` / `ring_buffer_space_avail` and the span
  macros `RING_BUFFER_GET_WRITE` / `RING_BUFFER_GET_READ`, all as functions
  of the two cursor values, with the space-accounting lemmas.
- `ring_contents.dfy` (module `RingContents`): the abstraction. `Window(d,
  tail, used)` is the sequence of stored bytes, oldest first, read from the
  array round its end; `Overwrite(d, head, s)` is the array after the write
  loop has stored `s` from `head` onwards. Lemmas show that a write appends to
  the window, a read drops a prefix of it, and the span macros give a region
  that is free (write) or holds the oldest bytes (read).
- `ring_trace.dfy` (module `RingTrace`): the buffer as a value `Ring` (array
  bytes and cursors), the effect of one `ring_buffer_write` (`AfterPut`) and
  one `ring_buffer_read` (`AfterTake`) on it, and `Run`, which applies any
  sequence of writes and reads. `Fifo` proves, by induction over that
  sequence, that the buffer is first-in-first-out: the bytes stored at the
  start and then all the bytes the writes accepted are exactly the bytes
  the reads delivered and then the bytes still stored.
- `ring_buffer.dfy` (module `RingBuffers`): class `RingBuffer` with the
  fields of `ring_buffer_t` (`data: array<char>`, `head`, `tail`), `Valid()`
  and the ghost functions `State()` (the object as a `Ring` value) and
  `Contents()`. `Init`, `SeekRead`, `SeekWrite`,
  `Write`, `Read` and `Peek` are methods; the copy loops of
  `ring_buffer_write`, `ring_buffer_read` and `ring_buffer_peek` are `while`
  loops with invariants, and each method states its new state as a change to
  `Contents()` (append a prefix of the input, drop a prefix, or nothing);
  `Write` and `Read` also state that the new `State()` is `AfterPut` /
  `AfterTake` of the old one, so the `Fifo` lemma applies to them.
- `ring_buffer_test.dfy` (module `RingBufferTests`): the scenarios of
  `buffer_test.c` as methods returning what that test asserts on, and two
  round trips for every input, one of them wrapping past the array's end.

The unsigned expressions `(tail - head - 1) & MASK` and `(head - tail) &
MASK` are modelled literally, as a wrap modulo 2^64 followed by the mask;
`MaskOfWrap` proves this equals Dafny's Euclidean remainder modulo N, since
N divides 2^64. Inside the proofs, cursors in range are moved with `Advance`
and compared with `Distance` (forward distance round the array);
`MaskIsAdvance` ties them to the masked C expressions.

Where the two differ, the model follows the code: the test string
"Hello, Ring Buffer!" is 19 bytes (`strlen`), so the basic scenario writes,
counts and reads 19 bytes, not 20.

## Model

| member | source | states |
|---|---|---|
| `RingMath.Mask` | buffer.h:6-7 | masking with `RING_BUFFER_MASK` always yields a slot index below N |
| `RingMath.Min` | buffer.h:12-13 | the kernel `min` yields one of its arguments and is at most both |
| `RingMath.MaskOfWrap` | buffer.h:47-56 | masking a `size_t` result that wrapped modulo 2^64 gives the true remainder modulo N, so the unsigned subtractions are right even when they go below zero |
| `RingMath.MaskIsAdvance` | buffer.h:59-67 | masking a cursor plus a count of at most N is moving that cursor forward round the array |
| `RingMath.SpaceUsed` | buffer.h:52-56 | used space is below N and, for cursors in range, is exactly how far `head` lies after `tail` |
| `RingMath.SpaceAvail` | buffer.h:46-50 | available space is below N and, for cursors in range, is N - 1 minus the used space (one slot kept free) |
| `RingMath.SpaceAccounting` | buffer.h:46-56 | used + avail == N - 1; used is 0 exactly when `head == tail`; avail is 0 exactly when the slot after `head` is `tail` |
| `RingMath.HeadAfterTail` | buffer.h:52-56 | `head` is the slot `used` places after `tail` |
| `RingMath.UsedAfterWrite` | buffer.h:64-67 | advancing `head` by n <= avail raises used space by exactly n |
| `RingMath.UsedAfterRead` | buffer.h:59-62 | advancing `tail` by n <= used lowers used space by exactly n |
| `RingMath.WriteSpan` | buffer.h:9-14 | the write span starts at `head & MASK`, ends at or before the array's end, is at most avail long, and is shorter than avail only when it reaches the array's end |
| `RingMath.ReadSpan` | buffer.h:16-21 | the read span starts at `tail & MASK`, ends at or before the array's end, is at most used long, and is shorter than used only when it reaches the array's end |
| `RingMath.WriteSpanIsFree` | buffer.h:9-14 | the j-th slot of the write span lies used + j slots after `tail`, inside the free region, so filling it never clobbers unread bytes |
| `RingContents.OverwriteStep` | buffer.h:76-79 | one iteration of the write loop (store at `head`, advance) extends the overwritten run by exactly the next input byte |
| `RingContents.OverwriteKeeps` | buffer.h:76-79 | the write loop changes no slot outside the written run, and writing nothing leaves the array as it was |
| `RingContents.WindowAppend` | buffer.h:70-82 | storing s in the slots after a window of stored bytes extends that window by exactly s |
| `RingContents.WindowDrop` | buffer.h:85-97 | moving the window's start forward by r drops exactly its first r bytes |
| `RingContents.AppendAtHead` | buffer.h:70-82 | writing s (at most avail bytes) at `head` and advancing `head` past it raises used by len(s) and makes the contents old contents followed by s |
| `RingContents.ConsumeAtTail` | buffer.h:85-97 | advancing `tail` past r <= used bytes lowers used by r and removes exactly the r oldest bytes |
| `RingContents.SpanWriteAppends` | buffer.h:9-31 | copying bytes contiguously into the write span and then seeking `head` past them appends exactly those bytes, as in the commented usage example; the `ring_buffer_write_advance` that example calls is defined nowhere and is read as `ring_buffer_seek_write` |
| `RingContents.ReadSpanIsOldest` | buffer.h:16-21 | the bytes of the read span, taken contiguously from the array, are the oldest stored bytes |
| `RingTrace.RingAccounting` | buffer.h:46-56 | the stored-byte count and free-slot count of a ring value are what `ring_buffer_space_used` and `ring_buffer_space_avail` return, they add up to N - 1, and the contents are the window those functions delimit |
| `RingTrace.AfterPut` | buffer.h:69-82 | a write leaves a valid ring with `tail` unchanged whose contents are the old contents followed by the first min(len, avail) bytes offered |
| `RingTrace.AfterTake` | buffer.h:84-97 | a read leaves a valid ring with `head` and the array unchanged whose contents are the old contents without their first min(n, used) bytes |
| `RingTrace.WriteIsAfterPut` | buffer.h:69-82 | the array and `head` that the write loop leaves are exactly `AfterPut`; contents gain exactly the written bytes; slots outside the written run keep their bytes; a full buffer takes nothing and changes nothing |
| `RingTrace.ReadIsAfterTake` | buffer.h:84-97 | moving `tail` past min(len, used) bytes, as the read loop does, is exactly `AfterTake`, and the contents lose exactly those bytes |
| `RingTrace.Run` | buffer.h:69-97 | any sequence of writes and reads leaves a valid ring, and the reads never deliver more bytes than were stored at the start plus those the writes accepted |
| `RingTrace.Fifo` | buffer.h:69-97 | first in, first out over any sequence of writes and reads: initial contents followed by all accepted bytes equal all delivered bytes followed by the final contents |
| `RingTrace.Fresh` | buffer.h:39-44 | the ring `ring_buffer_init` leaves (both cursors 0) is valid and empty |
| `RingTrace.DeliveredPrefixOfAccepted` | buffer.h:39-97 | from a freshly initialised buffer, the bytes read out are a prefix of the bytes accepted, and the bytes still stored are the rest of them |
| `RingBuffers.RingBuffer.constructor` | buffer.h:33-37 | storage for one `ring_buffer_t`: a fresh array of N slots; the cursors mean nothing until `ring_buffer_init` |
| `RingBuffers.RingBuffer.Init` | buffer.h:39-44 | both cursors become 0; the buffer is valid and empty, used is 0 and avail is N - 1 |
| `RingBuffers.RingBuffer.SeekRead` | buffer.h:58-62 | `tail` becomes `(tail + n) mod N`; when n <= used, used drops by n and the contents lose exactly their first n bytes |
| `RingBuffers.RingBuffer.SeekWrite` | buffer.h:64-67 | `head` becomes `(head + n) mod N`; when n <= avail, used rises by n and the n bytes already in the slots after the old `head` are appended to the contents |
| `RingBuffers.RingBuffer.Write` | buffer.h:69-82 | returns min(len, avail); contents become old contents followed by the first `written` input bytes; `tail` unchanged, `head` advanced by `written`; the array is the old one with only those slots overwritten; a full buffer returns 0 and nothing changes; the new state is `AfterPut` of the old |
| `RingBuffers.RingBuffer.Read` | buffer.h:84-97 | returns min(len, used); `out[0..read)` is the first `read` stored bytes and the rest of `out` is untouched; contents lose exactly that prefix; `head` and the array unchanged; an empty buffer returns 0 and nothing moves; the new state is `AfterTake` of the old |
| `RingBuffers.RingBuffer.Peek` | buffer.h:99-112 | returns 0 when `offset >= used`; otherwise min(len, used - offset) with `out[i] == contents[offset + i]`; only `out` changes, and only below the count returned |
| `RingBufferTests.BasicScenario` | buffer_test.c:12-28 | after init used is 0 and avail 1023; writing the 19-byte greeting returns 19 and used becomes 19; reading 19 returns 19 bytes equal to the greeting and used becomes 0 |
| `RingBufferTests.FullScenario` | buffer_test.c:30-35 | offering N bytes to an empty buffer, with the cursors at any slot, stores N - 1 of them and leaves avail at 0 |
| `RingBufferTests.CircularScenario` | buffer_test.c:37-50 | write "ABCDEF", read 3 (returns 3), write "123456", read up to N: the bytes read are "DEF123456" |
| `RingBufferTests.RoundTrip` | buffer.h:70-97 | any s of at most N - 1 bytes written into an empty buffer is written whole and read back unchanged |
| `RingBufferTests.WrappedRoundTrip` | buffer.h:59-97 | with both cursors first sought to any slot, any s of at most N - 1 bytes, even one that wraps past the array's end, is read back unchanged |

## Left out

- char_dev.c: module registration, the `open_count` counter and `printk` logging are host glue; its read and write handlers return 0 or `count` without touching any buffer, so there is nothing to model.
- char_dev.h: a struct declaration and two ioctl numbers, with no behaviour.
- char_test.c: a user-space program doing I/O on a device node; the length query and clear it expects are implemented by no code in the repository.
- The locked queue, the multi-queue registry, the enumeration/snapshot view, a clear operation and copy faults from or to user memory: the repository's code has none of them (only the commented example at buffer.h:24-31 mentions a copy from user space), and concurrency is outside a sequential model.
- Bitwise `&`: `x & RING_BUFFER_MASK` is modelled as `x % N`, which is the same for the power-of-two size 1024; the bit-level identity itself is not proved.
- Only the capacity 1024 is modelled, as in the code; other sizes are not.
- `char` is Dafny's `char`; signedness of C `char` plays no role in copying.
- The caller's source buffer is a `seq<char>` of at least `len` bytes and the destination an `array<char>` of at least `len` slots, distinct from the ring's own array. A caller buffer shorter than `len` (the loops touch only the bytes they copy) or a destination that is the ring's own array is defined in C but not modelled; no caller in the repository makes such a call.
- `RingBuffers.RingBuffer.SeekRead`, `RingBuffers.RingBuffer.SeekWrite`: when n exceeds used (resp. avail) the new cursor is stated but not what the contents then are; the C code does not keep the buffer meaningful in that case either.
- `RingBuffers.RingBuffer.constructor`: a C declaration leaves `head` and `tail` indeterminate; the model promises nothing about them until `Init`, and its array starts with Dafny's default characters rather than indeterminate bytes.
