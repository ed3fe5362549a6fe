# MemoryStreams: byte cursors and the circular buffer

This project models bytecoin's in-memory byte streams (`src/common/MemoryStreams.cpp`)
in their single-threaded mode, where every `BC_CREATE_LOCK` guard does nothing.

- `MemoryInputStream` is a read cursor over a fixed, caller-owned region.
- `VectorInputStream` is a read cursor over a shared, growable byte sequence.
  It also has a `copy_to` loop that feeds an output stream.
- `VectorOutputStream` is an append-only writer on a shared sequence.
- `CircularBuffer` is a fixed-capacity ring.
  - Its two counters, `readPos` and `writePos`, are not reduced modulo the capacity.
  - `write_some` and `read_some` touch one contiguous region at a time.
  - `did_write` and `did_read` move the counters. `did_read` subtracts the capacity from both once `readPos` reaches it.
  - `copy_from` and `copy_to` loop region by region against a source or a sink.

The project has five modules:

- `Bytes`: the byte type and `memcpy` into an array.
- `Cursor`: the specification of one read from a cursor, and of successive reads.
- `RingModel`: the ring as a value, with each step as a function.
  - Its abstraction is the queue of unread bytes. These are the storage slots at logical positions `readPos .. writePos`, each taken modulo the capacity.
  - Every step is proved against that queue: appending, consuming, and first-in first-out order over any sequence of operations.
- `MemoryStreams`: the stream classes, updated in place.
  - `CircularBuffer.DidWrite`, `DidRead`, `WriteSome` and `ReadSome` are each proved against the `RingModel` function of the same name.
  - `CopyFrom` and `CopyTo`, and the single passes of their loops, are proved against the queue of unread bytes, through the loop-state predicates `Filled` and `Drained`; `CopyTo`'s new state is `RingModel.DidRead` of the old one by the total it hands over.
  - Each stream also states what a call leaves alone: a reader never changes the bytes it reads, and a ring used as a source or sink has its counters stated exactly.
  - Each cursor's `ReadSome` is proved against `Cursor.Take`.
  - The copy loops carry invariants that keep the bytes conserved: what the sink holds plus what is left equals what there was.
- `Scenarios`: concrete runs whose final counts, bytes and counters are proved from the contracts of the operations they call.
  - A capacity-8 ring where a write stops at the physical end of the block, a second write wraps, and `copy_to` drains every byte across the wrap point.
  - A capacity-4 ring that `copy_from` fills across the wrap point from a 5-byte memory region.
  - A capacity-4 ring filled from a vector reader and then topped up as the sink of a second reader over the same, unchanged vector.

The helpers `write_count()`, `read_count()`, `write_ptr()` and `read_ptr()` are declared in `MemoryStreams.hpp`, which is not part of this model. They are defined here as:

- `write_count = min(C - (writePos - readPos), C - writePos % C)`, starting at slot `writePos % C`;
- `read_count = min(writePos - readPos, C - readPos % C)`, starting at slot `readPos % C`.

## Model

| member | source | states |
|---|---|---|
| Bytes.Memcpy | src/common/MemoryStreams.cpp:23 | `memcpy` overwrites exactly the target range of the array and leaves every other element unchanged |
| Cursor.Take | src/common/MemoryStreams.cpp:17-26 | a read returns `min(size, len - pos)` bytes, which are exactly `src[pos..]` up to that count; it returns fewer than asked only at the end, and none only when asked for none or at the end |
| Cursor.TakeFromRest | src/common/MemoryStreams.cpp:20-24 | the bytes read are a prefix of the bytes left after the cursor, and what is left afterwards is the rest |
| Cursor.ReadsAreContiguous | src/common/MemoryStreams.cpp:55-63 | successive reads of any sizes return the next `min(sum of sizes, bytes left)` bytes of the source, in order, with none skipped or repeated |
| RingModel.WriteCount | src/common/MemoryStreams.cpp:109 | the writable region is at most the free space and never crosses the end of storage; it is empty exactly when the ring is full; it is as long as one of those two bounds allows |
| RingModel.ReadCount | src/common/MemoryStreams.cpp:101 | the readable region is at most the unread count and never crosses the end of storage; it is empty exactly when the ring is empty; it is as long as one of those two bounds allows |
| RingModel.DidWrite | src/common/MemoryStreams.cpp:117-121 | under the "Writing past end of Buffer" condition, the unread count grows by exactly `count` and the invariant holds |
| RingModel.DidRead | src/common/MemoryStreams.cpp:123-134 | under the "Reading past end of Buffer" condition, the read counter becomes `(readPos + count) mod C`, the unread count shrinks by exactly `count`, and normalization keeps the invariant |
| RingModel.DidWriteAppends | src/common/MemoryStreams.cpp:117-121 | `did_write(count)` appends to the unread queue the `count` slots after the old write position, and nothing else |
| RingModel.DidReadConsumes | src/common/MemoryStreams.cpp:123-134 | `did_read(count)` removes exactly the first `count` unread bytes; subtracting the capacity from both counters moves no byte |
| RingModel.StoreIntoFree | src/common/MemoryStreams.cpp:107-115 | copying at most `write_count()` bytes to the write position leaves every unread byte in place, and the slots after the write position then hold the copied bytes |
| RingModel.WriteSomeAppends | src/common/MemoryStreams.cpp:107-115 | `write_some` accepts `min(size, write_count())` bytes and appends exactly that prefix of the data to the queue; it accepts nothing exactly when offered nothing or full |
| RingModel.ReadSomeTakes | src/common/MemoryStreams.cpp:99-105 | `read_some` returns `min(size, read_count())` bytes, which are the front of the queue, and removes them; it returns nothing exactly when asked for nothing or empty |
| RingModel.DidReadTwice | src/common/MemoryStreams.cpp:123-134 | two `did_read` calls in a row leave the ring as one call for both counts does, normalization included |
| RingModel.RunIsFifo | src/common/MemoryStreams.cpp:99-134 | for any interleaving of writes and reads: (bytes unread at the start) + (bytes accepted) = (bytes returned) + (bytes unread at the end); the invariant and the capacity are kept |
| RingModel.ReadsArePrefixOfWrites | src/common/MemoryStreams.cpp:99-134 | starting empty, the bytes read are a prefix of the bytes accepted, and the unread queue is exactly the remainder |
| MemoryStreams.MemoryInputStream.ReadSome | src/common/MemoryStreams.cpp:17-26 | returns `Cursor.Take` of the buffer at the cursor; copies exactly those bytes to the destination, advances the cursor by their count and keeps it within the buffer |
| MemoryStreams.VectorInputStream.ReadSome | src/common/MemoryStreams.cpp:55-63 | the same as `MemoryInputStream.ReadSome`, over the shared sequence |
| MemoryStreams.VectorInputStream.Offer | src/common/MemoryStreams.cpp:75-76 | one pass of the `copy_to` loop: the sink receives the next bytes of the sequence and the cursor moves past them; the sink's read counter stays and its write counter moves by the count; a refusal happens only at a full sink |
| MemoryStreams.VectorInputStream.CopyTo | src/common/MemoryStreams.cpp:65-85 | returns `total <= max_count`, advances the cursor by `total`, and appends `src[oldPos .. oldPos + total)` to the sink in order; the sink's read counter stays and its write counter moves by `total`; it stops only when `max_count` is used up, the source is exhausted, or the sink is full |
| MemoryStreams.VectorOutputStream.WriteSome | src/common/MemoryStreams.cpp:93-97 | appends all of the data to the shared sequence, keeps the earlier bytes, and returns the data's length |
| MemoryStreams.CircularBuffer.DidWrite | src/common/MemoryStreams.cpp:117-121 | the new state is `RingModel.DidWrite` of the old state; the queue grows by the slots after the old write position |
| MemoryStreams.CircularBuffer.DidRead | src/common/MemoryStreams.cpp:123-134 | the new state is `RingModel.DidRead` of the old state; the queue loses exactly its first `count` bytes |
| MemoryStreams.CircularBuffer.WriteSome | src/common/MemoryStreams.cpp:107-115 | the new state and count are `RingModel.WriteSome` of the old state; the queue gains the accepted prefix; the count is `min(size, write_count())`, and 0 exactly when offered nothing or full |
| MemoryStreams.CircularBuffer.ReadSome | src/common/MemoryStreams.cpp:99-105 | the new state and bytes are `RingModel.ReadSome` of the old state; the destination receives the first `n` unread bytes; the count is `min(size, read_count())`, and 0 exactly when asked for none or empty |
| MemoryStreams.CircularBuffer.FillRegion | src/common/MemoryStreams.cpp:142-143 | one pass of the `copy_from` loop, from one loop state to the next: the source's next bytes are appended to the queue and leave the source; the read counter stays and the write counter moves by the count; the source's bytes are unchanged and its position (a ring source's state, by `did_read`) has moved past every byte taken so far; the pass moves nothing exactly when the source is empty |
| MemoryStreams.CircularBuffer.CopyFrom | src/common/MemoryStreams.cpp:136-147 | bytes are conserved: the queue then the source's remaining bytes are the old queue then the old remaining bytes; the read counter does not move and the queue only grows; the source's bytes are unchanged and its position (a ring source's state, by `did_read`) has moved by exactly what the write counter gained; on return the ring is full or the source is exhausted |
| MemoryStreams.CircularBuffer.Front | src/common/MemoryStreams.cpp:156 | the `rc` bytes at `read_ptr()` that `copy_to` offers are exactly the first `rc` bytes of the queue |
| MemoryStreams.CircularBuffer.DrainRegion | src/common/MemoryStreams.cpp:156-157 | one pass of the `copy_to` loop, from one loop state to the next: the sink receives the front of the queue, which then leaves the queue; the ring's state is `RingModel.DidRead` of the state before the loop by everything handed over; the sink's read counter stays; a refusal happens only at a full sink |
| MemoryStreams.CircularBuffer.CopyTo | src/common/MemoryStreams.cpp:149-164 | returns `total <= max_count`; the sink receives the first `total` unread bytes in order and they leave the queue; the new state is `RingModel.DidRead` of the old state by `total`; the sink's read counter stays and its write counter moves by `total`; it stops only when `max_count` is used up, the ring is empty, or the sink is full |
| MemoryStreams.InputStream.ReadSome | src/common/MemoryStreams.cpp:142 | the `IInputStream::read_some` that `copy_from` relies on: at most `size` bytes, the front of what is left, and none only when asked for none or exhausted; a memory or vector cursor advances by the count and a vector's bytes stay; a ring source keeps its storage, its read counter becomes `(readPos + n) mod C` and its unread count shrinks by `n` |
| MemoryStreams.OutputStream.WriteSome | src/common/MemoryStreams.cpp:156 | the `IOutputStream::write_some` that the `copy_to` loops rely on: it takes a prefix of the data, at most the data's length, and takes nothing only when offered nothing or full; a ring sink's read counter stays and its write counter moves by the count |
| Scenarios.WrapAroundTrace | src/common/MemoryStreams.cpp:99-164 | capacity 8: "ABCDE" accepted (5); "ABC" read; "FGHIJK" offered, 3 accepted up to the block's end; the rest offered, 3 accepted at its start; `copy_to` hands over "DEFGHIJK" (8) and the counters rest at 3 |
| Scenarios.ExactFitTrace | src/common/MemoryStreams.cpp:99-164 | capacity 8: "ABCDE" accepted (5); "ABC" read; "FGH" accepted (3), filling the block to its end; `copy_to` with limit 100 hands over "DEFGH" (5) and both counters normalize to 0 |
| Scenarios.FillToTheEnd | src/common/MemoryStreams.cpp:107-121 | with counters 3 and 5, "FGH" is accepted whole and the write counter reaches 8 |
| Scenarios.WriteThenRead | src/common/MemoryStreams.cpp:99-115 | capacity 8: writing "ABCDE" returns 5, reading 3 returns "ABC", and the counters are then 3 and 5 |
| Scenarios.OfferPastTheEnd | src/common/MemoryStreams.cpp:107-121 | with counters 3 and 5, "FGHIJK" is accepted 3 bytes at a time, in two calls on either side of the wrap point |
| Scenarios.DrainIntoVector | src/common/MemoryStreams.cpp:149-164 | `copy_to` into a vector sink with a limit of at least the capacity empties the ring and hands over every unread byte |
| Scenarios.FillFromMemoryTrace | src/common/MemoryStreams.cpp:136-147 | capacity 4 with counters at 2: `copy_from` a 5-byte region keeps "WXYZ", stored across the wrap point as `FillUntilFull` states, and leaves "V" in the source; copying the ring out yields "WXYZ" |
| Scenarios.WriteThenReadTwo | src/common/MemoryStreams.cpp:99-134 | capacity 4: two bytes written and read leave the ring empty with both counters at 2 |
| Scenarios.FillUntilFull | src/common/MemoryStreams.cpp:136-147 | `copy_from` fills the ring with "WXYZ" in slots 2, 3, 0 and 1 (counters 2 and 6), leaving it full, and the fifth byte stays in the source |
| Scenarios.SharedVectorTrace | src/common/MemoryStreams.cpp:55-164 | capacity 4 with counters at 2: `copy_from` a vector reader over "abc" takes all 3 bytes; a second reader over the same vector then `copy_to`s the ring, which takes 1; the vector is unchanged, the readers stand at 3 and 1, and the ring's counters end at 2 and 6 |
| Scenarios.FillFromVector | src/common/MemoryStreams.cpp:136-147 | `copy_from` a 3-byte vector into an empty ring with room for 4 takes everything, moves only the write counter (2 to 5) and leaves the vector's bytes as they were |
| Scenarios.TopUpFromVector | src/common/MemoryStreams.cpp:65-85 | a vector reader's `copy_to` into a ring holding 3 of 4 hands over 1 byte, "a"; the ring's read counter stays at 2 and its write counter reaches 6 |

## Left out

- Locking (`src/common/Lock.hpp`) and every `BC_CREATE_LOCK` are treated as no-ops. Interleavings of two threads on one ring are not modelled, and neither is the read-then-write lock order in `did_read`.
- `StringInputStream` and `StringOutputStream` (src/common/MemoryStreams.cpp:28-53, 87-91) run the same code as the `Vector` classes, over chars instead of bytes. `VectorInputStream` and `VectorOutputStream` stand for both.
- `IInputStream` and `IOutputStream` are open interfaces whose `read_some` / `write_some` promise only a count of at most `size`. Here they are the closed sums `InputStream` and `OutputStream` over the implementations in this file, which move 0 bytes only when asked for none, when exhausted, or when full. Sources and sinks elsewhere in the program that legitimately return 0 early (backpressure, such as a socket) are not modelled.
- MemoryStreams.VectorInputStream.CopyTo: the stop condition `out.Full()` holds only because the set of sinks is closed; for an arbitrary `IOutputStream` the source promises only that the loop stops when the sink takes 0.
- MemoryStreams.CircularBuffer.CopyTo: the same; its `out.Full()` stop condition relies on the closed set of sinks.
- MemoryStreams.VectorInputStream.Offer: `count == 0 ==> out.Full()` relies on the closed set of sinks.
- MemoryStreams.CircularBuffer.DrainRegion: `count == 0 ==> out.Full()` relies on the closed set of sinks.
- MemoryStreams.CircularBuffer.CopyFrom: likewise, "the source is exhausted" on return relies on the closed set of sources; an arbitrary `IInputStream` may return 0 before it is exhausted.
- The `invariant(...)` checks ("jump over the end of buffer", "Writing past end of Buffer", "Reading past end of Buffer") abort the process. Here they are preconditions or invariants.
- `MemoryStreams.hpp` is not part of this model: constructors, `read_count()`, `write_count()`, `read_ptr()` and `write_ptr()`.
  - The helpers are defined as stated above.
  - A ring's constructor requires a capacity of at least 1, because the helpers reduce modulo the capacity.
- `size_t` wrap-around is not modelled. Within the preconditions the counters stay below twice the capacity. `did_write` adds before it checks, so in the source a `count` of `2^64 - writePos` or more wraps `writePos` and can pass the "Writing past end of Buffer" check (a `count` of `SIZE_MAX` decrements it). The precondition of `DidWrite`, over unbounded integers, excludes such counts. The same holds for `did_read`.
- Raw pointers, `memcpy` and `shared_ptr` ownership become arrays, sequence slices and a shared `SharedBuffer` object.
- Self-copies are excluded by the frame preconditions (`this !in out.Repr()`, `input !in out.Repr()`, `this !in src.Repr()`).
  - A vector reader appending into its own vector is excluded because the `append` may reallocate the vector under the reader's source pointer.
  - As a consequence of these frame preconditions, `VectorInputStream.CopyTo` never sees the shared sequence change between iterations, although the source re-reads its size on each pass.
  - A ring copying into itself is simply not modelled. In the source its `memcpy` runs between the readable and writable regions, which are disjoint.
- `MemoryInputStream` treats the caller's memory region as immutable for the cursor's lifetime.
- The commented-out `fprintf` debugging lines have no counterpart.
