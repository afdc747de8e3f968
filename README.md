# Byte ring buffer (RingTest/RingBuffer.c), modelled in Dafny

The library keeps a `RING_DATA` record with four fields:

- `buf`: the storage;
- `size`: the capacity C;
- `head`: the next slot to write;
- `tail`: the next slot to read.

It always keeps one slot free, so `head == tail` means the ring is empty.
The model follows the configuration with `POWER_2_OPTIMIZATION` defined:
`RING_InitBuffer` rounds the requested capacity down to a power of two, and
every cursor advance masks with `size - 1`.

The project is four modules, one per file:

- `Bits` (bits.dfy): the `size_t` operations the source uses, stated on
  unbounded naturals. Right shift is division by `2^k`. Bitwise `|` and `&`
  are defined bit by bit. `SizeT` wraps a value into the 32-bit `size_t`
  range.
- `Rounding` (rounding.dfy): `RING_RoundDown`, line for line, with the proof
  that it returns the largest power of two not above its argument.
- `Space` (space.dfy): the space queries as closed formulas over
  (C, head, tail). It also defines the stored bytes as the window of storage
  that starts at the read cursor, and proves the lemmas that relate the
  queries, the cursor moves and that window.
- `RingBuffer` (ring.dfy): the class `RingData`, with the fields of
  `RING_DATA` and one method per operation that changes state.
  - Space queries read the fields.
  - Cursor advances assign `head` or `tail` through the mask `Wrap`.
  - Byte and buffered copies write `buf` or the caller's array in loops.
  - Direct windows return a start index and a length where the source
    returns a pointer.
  - Each method states its whole new state: the cursors, the storage, and
    the stored bytes `Contents()` in terms of the old ones.

A fifth file, scenarios.dfy (module `Scenarios`), replays the library's own
checks through the methods' contracts alone. Examples: capacities 16 and 32
for 19 and 35 requested bytes; the space figures after cursor moves; the
copy and direct round trips. It also replays the two edge cases described
under "## Findings".

The linear free query is modelled as written.

- At capacity 1 it reports `size - 2`, which wraps to `2^32 - 1` in
  `size_t`. `GetFreeLinearSpace` returns that wrapped value.
- `AddBufferDirectly` may therefore grant up to `2^32 - 1` bytes at
  capacity 1.
- `AddBufferDirectly` may grant one byte more than the free space when the
  read cursor is at slot 0.

The direct write's contract states what happens in each case. The corrected
query, `Space.FreeLinearIntended`, and the corrected write,
`RingBuffer.RingData.AddBufferDirectlyIntended`, sit beside them. The
corrected query differs from the source in those two states only
(`Space.IntendedChangesOnlyDefects`). In the fresh state it keeps the
source's `size - 2` from capacity 2 on, as RingTest/Tests/Test1.c:77 expects.

`size_t` is taken to be 32 bits wide, the width the five smearing steps of
`RING_RoundDown` cover. On a 64-bit host build the capacity-1 answer of the
linear free query wraps to `2^64 - 1` instead of `2^32 - 1`; the defect is
the same.

A cursor advance adds `count` to a cursor in `size_t`, and that sum may wrap
modulo 2^32 before the mask. The model masks the exact sum instead.
`RingBuffer.AdvanceIgnoresOverflow` proves that the two give the same slot,
because the capacity is a power of two that divides 2^32.

`RING_GetFreeSpace` and `RING_GetFullSpace` compute their results with `%`:

- `Space.FreeAsWritten` and `Space.FullAsWritten` are those expressions as
  written.
- `Space.Free` and `Space.Full` are closed forms used throughout the model.
- `Space.QueriesMatchSource` proves that the two forms agree in every state.

## Model

| member | source | states |
|---|---|---|
| Rounding.RoundDown | RingTest/RingBuffer.c:52-59 | the five smearing lines and the final `x - (x >> 1)`, one expression per statement; what it returns is stated by `RoundDownLargestPow2`, `RoundDownKeepsPow2` and `RoundDownIs` |
| Rounding.RoundDownLargestPow2 | RingTest/RingBuffer.c:52-59 | for every 32-bit x > 0, the five smearing lines followed by `x - (x >> 1)` give `2^log2(x)`; the result is at most x, x is below twice the result, and every power of two up to x is up to the result |
| Rounding.RoundDownKeepsPow2 | RingTest/RingBuffer.c:52-59 | a capacity that is already a power of two below 2^32 is kept unchanged |
| Rounding.RoundDownIs | RingTest/RingBuffer.c:52-59 | x rounds to 2^k exactly when 2^k <= x < 2^(k+1), in both directions |
| Rounding.RoundDownExamples | RingTest/Tests/Test1.c:43-122 | 5, 9, 16, 17, 19 and 35 round to 4, 8, 16, 16, 16 and 32: 19 and 35 at lines 43-52, 17 at line 70, 16 at line 116 and 9 at line 122 (5 is the request at RingBuffer/Tests/Test1.c:157-158) |
| Rounding.SmearStep | RingTest/RingBuffer.c:53-57 | one line `x = x or (x >> s)` doubles the run of set bits below the highest one, up to the width of x |
| Bits.AndOnesIsMod | RingTest/RingBuffer.c:280 | masking with `2^k - 1` is the remainder modulo `2^k`, so the mask form of a cursor advance is the modulo form |
| Bits.MaskIgnoresWordWrap | RingTest/RingBuffer.c:280 | for k <= 32, masking with `2^k - 1` gives the same result on `v mod 2^32` as on v |
| RingBuffer.AdvanceIgnoresOverflow | RingTest/RingBuffer.c:278-311 | a cursor sum that wraps in the 32-bit `size_t`, masked with `size - 1`, is still the exact sum modulo the capacity, so overflow of `cursor + count` never changes the slot |
| Bits.SizeT | RingTest/RingBuffer.c:207 | conversion to a 32-bit `size_t`: the result is in range and congruent to its argument modulo 2^32 |
| RingBuffer.RingData.Wrap | RingTest/RingBuffer.c:280 | `(v) & (size - 1)` on a ring of power-of-two capacity is `v mod size`, below size, and is `v` or `v - size` when v is below twice the capacity |
| RingBuffer.RingData.Make | RingTest/RingBuffer.h:82-88 | a record over the given storage and power-of-two capacity with both cursors at slot 0 satisfies the ring invariant |
| RingBuffer.RingData.InitBuffer | RingTest/RingBuffer.c:88-120 | a zero size fails (null) and only a zero size does; otherwise the capacity is `RoundDown(size)`, with `size' <= size < 2 size'`, both cursors are 0, and nothing is stored; the storage is the caller's (not owned), or a fresh owned array of the rounded capacity |
| RingBuffer.RingData.GetBufferSize | RingTest/RingBuffer.c:163-165 | the capacity is a power of two and one more than the free and the stored bytes together |
| Space.Free | RingTest/RingBuffer.c:184-186 | the free space is below the capacity |
| Space.Full | RingTest/RingBuffer.c:231-233 | the stored space is below the capacity and with the free space makes `C - 1` |
| Space.FreeAsWritten | RingTest/RingBuffer.c:185 | the source's `((tail + size - head - 1) % size + 1) - 1` is in [0, C), and that many slots after head, plus one, is tail modulo C |
| Space.FullAsWritten | RingTest/RingBuffer.c:232 | the source's `size - ((tail + size - head - 1) % size + 1)` is in [0, C), and that many slots after tail is head modulo C |
| RingBuffer.RingData.GetFreeSpace | RingTest/RingBuffer.c:184-186 | at most `C - 1`, and exactly `C - 1` when the cursors meet |
| RingBuffer.RingData.GetFreeLinearSpace | RingTest/RingBuffer.c:205-212 | the answer as the 32-bit `size_t` the source returns: below 2^32, inside storage from the write cursor from capacity 2 on, and `2^32 - 1` at capacity 1 |
| RingBuffer.RingData.GetFullSpace | RingTest/RingBuffer.c:231-233 | at most `C - 1`, and 0 exactly when the cursors meet |
| RingBuffer.RingData.GetFullLinearSpace | RingTest/RingBuffer.c:252-257 | a run from the tail inside storage, at most the stored space, and all of it exactly when head >= tail or head is 0 |
| Space.FullLinear | RingTest/RingBuffer.c:252-257 | the linear stored run from tail never crosses the end of storage and is at most the stored space |
| Space.QueriesMatchSource | RingTest/RingBuffer.c:184-186 | the source's modular expressions for free and full space are never negative and equal the closed forms in every state |
| Space.SpaceAccounting | RingTest/RingBuffer.c:231-233 | free space is `(tail + C - head - 1) mod C`; free plus full is `C - 1`; both lie in [0, C-1]; full is 0 exactly when head equals tail |
| Space.SpaceReachesCursors | RingTest/RingBuffer.c:184-186 | going round the ring, the free slots end just behind the read cursor and the stored bytes end at the write cursor |
| Space.FreeLinear | RingTest/RingBuffer.c:205-212 | the linear free query is negative (a wrapped `size_t`) exactly at capacity 1, and from capacity 2 on it never crosses the end of storage |
| Space.FreeLinearWithinFree | RingTest/RingBuffer.c:205-212 | the linear free query is within the free space exactly when the read cursor is not at slot 0 or the write cursor is |
| Space.FreeLinearAgainstRun | RingTest/RingBuffer.c:205-212 | the query as written is one below the longest free run inside storage when both cursors are at slot 0, one above it when only the read cursor is, and equal to it otherwise |
| Space.FreeLinearIntended | RingTest/RingBuffer.c:205-212 | the corrected query is always within the free space and inside storage; in the fresh state it is the source's `C - 2` from capacity 2 on and 0 at capacity 1; elsewhere it is the smaller of the free space and the distance from the write cursor to the end of storage |
| Space.IntendedChangesOnlyDefects | RingTest/RingBuffer.c:205-212 | the corrected query differs from the source's exactly at capacity 1 (one more) and with tail 0 and head elsewhere (one less) |
| Space.FullLinearIsStoredRun | RingTest/RingBuffer.c:252-257 | the linear stored run is the stored bytes cut at the end of storage; it never crosses that end, is at most the stored space, and equals it exactly when head >= tail or head is 0 |
| Space.AdvanceHead | RingTest/RingBuffer.c:278-284 | advancing the write cursor by n within the free space keeps it in range and moves n bytes from free to stored |
| Space.AdvanceTail | RingTest/RingBuffer.c:305-311 | advancing the read cursor by n within the stored space keeps it in range and moves n bytes from stored to free |
| Space.WindowSplit | RingTest/RingBuffer.c:409-417 | a run of `a + b` slots round the ring is its first `a` slots followed by the `b` after them |
| Space.StoredUnchanged | RingTest/RingBuffer.c:409-417 | writes confined to the free slots after the write cursor leave the stored bytes unchanged |
| Space.WriteRun | RingTest/RingBuffer.c:409-417 | writing n <= free bytes one by one from the write cursor appends exactly those bytes to the stored bytes |
| Space.GrowWindow | RingTest/RingBuffer.c:278-284 | reserving g <= free slots at the write cursor appends the bytes in those slots to the stored bytes |
| Space.ShrinkWindow | RingTest/RingBuffer.c:305-311 | releasing g <= stored bytes at the read cursor drops the first g stored bytes |
| Space.DirectFill | RingTest/RingBuffer.c:440-452 | filling a reserved window that is within the free space and inside storage appends exactly its bytes to the stored bytes and leaves the earlier ones untouched |
| Space.LinearGrant | RingTest/RingBuffer.c:443 | the grant `min(linear free, n)` never crosses the end of storage from capacity 2 on, is `min(2^32 - 1, n)` at capacity 1, and never crosses that end when it is within the free space |
| Space.DirectGrant | RingTest/RingBuffer.c:440-452 | a direct write moves the write cursor by the grant; when the grant is within the free space, the stored bytes grow by exactly the granted stretch of storage |
| Space.CapacityOneUnderflow | RingTest/RingBuffer.c:206-207 | at capacity 1 the empty-state answer `size - 2` is -1 while the free space is 0; the corrected query gives 0 |
| Space.TailZeroGrantEmpties | RingTest/RingBuffer.c:208-209 | with the read cursor at 0 and the write cursor elsewhere, the linear free query is one more than the free space, and taking the whole grant puts the write cursor on the read cursor, so the ring reads as empty |
| Space.FullBufferGrantsOneByte | RingTest/RingBuffer.c:208-209 | capacity 4, head 3, tail 0: the ring is full with 3 stored bytes, yet the linear free query is 1 and taking it moves head to 0 |
| Space.IntendedGrantIsSafe | RingTest/RingBuffer.c:205-212 | any grant within the corrected query stays inside storage and adds exactly that many stored bytes |
| RingBuffer.RingData.IncreaseHead | RingTest/RingBuffer.c:278-284 | head becomes `(head + count) mod C`; tail and storage are unchanged; within the free space, the stored count grows by count and the bytes already in those slots are appended to the stored bytes |
| RingBuffer.RingData.IncreaseTail | RingTest/RingBuffer.c:305-311 | tail becomes `(tail + count) mod C`; head and storage are unchanged; within the stored space, the stored count falls by count and the first count stored bytes are dropped |
| RingBuffer.RingData.AddByte | RingTest/RingBuffer.c:373-384 | succeeds exactly when there is free space; on success the byte is written at the old head, head advances by one and the byte is appended to the stored bytes; on failure nothing changes |
| RingBuffer.RingData.AddBuffer | RingTest/RingBuffer.c:405-419 | copies `min(free, size)` bytes; source byte i lands in the slot i steps after the old head, round the ring; no other slot changes; head advances by the count; those bytes are appended to the stored bytes |
| RingBuffer.RingData.AddBufferDirectly | RingTest/RingBuffer.c:440-452 | grants `min(linear free, n)` from the old head and moves head past the grant at once; the grant is inside storage from capacity 2 on and up to `2^32 - 1` at capacity 1; when it is within the free space, the stored bytes grow by the granted window; storage is untouched |
| RingBuffer.RingData.AddBufferDirectlyIntended | RingTest/RingBuffer.c:440-452 | the corrected direct write: the grant is within the free space and inside storage, and the stored bytes always grow by exactly the granted window |
| RingBuffer.RingData.GetByte | RingTest/RingBuffer.c:472-484 | succeeds exactly when something is stored; on success it returns the oldest stored byte (the one at the old tail), advances tail by one and drops that byte; on failure tail is unchanged |
| RingBuffer.RingData.GetByteSimple | RingTest/RingBuffer.c:503-512 | returns the byte at the old tail and advances tail by one without checking; on a non-empty ring that is the oldest byte and it is dropped; on an empty ring the tail passes the head and the ring then reports `C - 1` stored bytes |
| RingBuffer.RingData.GetBuffer | RingTest/RingBuffer.c:533-549 | moves `min(full, len)` of the oldest stored bytes into the front of the destination, leaves the rest of the destination and the storage unchanged, advances tail by the count and drops those bytes |
| RingBuffer.RingData.GetBufferDirectly | RingTest/RingBuffer.c:569-584 | grants `min(linear full, n)` from the old tail, a window inside storage that holds the oldest stored bytes, and moves tail past it at once; storage is untouched |
| RingBuffer.RingData.PickBytes | RingTest/RingBuffer.c:605-620 | copies `min(full, len)` of the oldest stored bytes into the front of the destination through a local copy of tail; the ring itself does not change |
| Scenarios.NewRing | RingTest/RingBuffer.c:88-120 | a request between 2^k and 2^(k+1) gives a valid empty ring of capacity 2^k |
| Scenarios.SizeChecks | RingTest/Tests/Test1.c:43-56 | requests of 19 and 35 bytes give capacities 16 and 32 |
| Scenarios.FreshSpaces | RingTest/Tests/Test1.c:70-103 | a fresh ring of 17 requested bytes has free 15, linear free 14, full 0 and linear full 0 |
| Scenarios.FillFresh | RingTest/Tests/Test1.c:116-129 | a fresh ring of capacity 2^k takes `min(2^k - 1, the data length)` bytes |
| Scenarios.FillAll | RingBuffer/Tests/Test1.c:221-245 | sixteen bytes offered to rings of 16 and 9 requested bytes: 15 and 7 are taken |
| Scenarios.Spaces | RingTest/RingBuffer.c:184-257 | the four queries on one ring, with free plus full equal to `C - 1` |
| Scenarios.Moved | RingBuffer/Tests/Test1.c:157-162 | a capacity-4 ring whose cursors were advanced from 0 to the given slots |
| Scenarios.SpaceAfterSkip | RingBuffer/Tests/Test1.c:157-174 | capacity 4, cursors at 2, head advanced once: free 2, linear free 1, full 1, linear full 1 |
| Scenarios.SpaceAcrossEnd | RingBuffer/Tests/Test1.c:177-194 | capacity 4, cursors at 3, head advanced once round the end: free 2, linear free 2, full 1, linear full 1 |
| Scenarios.SpaceWhenFull | RingBuffer/Tests/Test1.c:198-214 | capacity 4, tail at 2, head at 1: free 0, linear free 0, full 3, linear full 2 |
| Scenarios.CopyRoundTrip | RingBuffer/Tests/Test1.c:247-281 | on a ring of capacity 8, what is added is what a look-ahead shows and what is then taken out, `min(7, the data length)` bytes, after which the ring is empty |
| Scenarios.WrapRoundTrip | RingBuffer/Tests/Test1.c:247-281 | on an empty ring with its cursors anywhere, across the end of storage or not, `min(C - 1, the data length)` bytes are added and the same bytes come out in order, leaving the ring empty |
| Scenarios.FillAt | RingBuffer/Tests/Test1.c:353 | the caller's `memcpy` of n bytes into storage from a given slot writes exactly those slots and leaves every other slot unchanged |
| Scenarios.DirectWrite | RingBuffer/Tests/Test1.c:352-354 | from any state, a direct write filled in place is granted `min(linear free, n)`; when that is within the free space, the stored bytes grow by exactly the bytes written |
| Scenarios.DirectWriteIntended | RingBuffer/Tests/Test1.c:352-354 | from any state, the corrected direct write filled in place always grows the stored bytes by exactly the bytes written |
| Scenarios.DirectRoundTrip | RingBuffer/Tests/Test1.c:374-418 | on an empty ring with both cursors at 0, a direct write is granted `min(C - 2, the data length)` bytes, and a direct read hands back exactly the bytes the caller put there |
| Scenarios.DirectOnStorage | RingBuffer/Tests/Test1.c:393-405 | the direct round trip on caller storage of 9 bytes passes `min(6, the data length)` bytes through unchanged |
| Scenarios.CapacityOneGrant | RingTest/RingBuffer.c:206-207 | a ring of capacity 1 has no free space, yet its linear free query reports `2^32 - 1` |
| Scenarios.FullRingLosesData | RingTest/RingBuffer.c:440-452 | a full ring of capacity 4 with tail 0 still grants one direct byte, and after it 0 bytes read as stored instead of 3 |
| Scenarios.FullRingKeepsData | RingTest/RingBuffer.c:440-452 | the same full ring under the corrected direct write: nothing is granted and the 3 stored bytes remain |

## Left out

- Allocation failure of `malloc` in `RING_InitBuffer` is left out, because the model has no allocator that can fail. `RING_DeinitializeBuffer` is left out too: releasing memory has no counterpart in a garbage-collected heap. Which storage the ring owns is kept as the `dynamic` field.
- `RING_GetHeadPointer` and `RING_GetTailPointer` only expose raw pointers. The model uses indices into `buf` instead, and the direct methods return a start index where the source returns a pointer.
- The configuration without `POWER_2_OPTIMIZATION` (capacity kept as requested, `%` instead of the mask) is not modelled.
- RingBuffer.RingData.IncreaseHead, and likewise RingBuffer.RingData.IncreaseTail: `count` is unbounded instead of a `size_t`, and the sum is masked without wrapping it first; `RingBuffer.AdvanceIgnoresOverflow` proves that the wrap cannot change the result.
- Rounding.RoundDownLargestPow2: stated for 0 < x < 2^32 only. The source's smear stops at `>> 16`, so it does not cover wider words.
- RingBuffer.RingData.IncreaseHead: states what is stored only when `count` is within the free space. The source leaves larger counts to the caller.
- RingBuffer.RingData.IncreaseTail: states what is stored only when `count` is within the stored space. The source leaves larger counts to the caller.
- RingBuffer.RingData.AddBufferDirectly: states the new stored bytes only when the grant is within the free space. Beyond it, the earlier stored bytes are lost; `Space.TailZeroGrantEmpties` and `Scenarios.FullRingLosesData` state what happens then.
- RingBuffer.RingData.AddBuffer takes its source bytes as a sequence, so aliasing between the caller's buffer and the ring's storage is not modelled. `GetBuffer` and `PickBytes` require a destination array distinct from the storage.
- The caller's `memcpy` into or out of a direct window is modelled only in `Scenarios.FillAt`, the direct writes and the direct round trips.
- The streaming tests with a random charset and repeated partial reads (RingBuffer/Tests/Test1.c:285-418) are not replayed as loops.
  - Their building blocks are proved: the copy round trip from any empty state, the direct write filled in place from any state, the direct round trip from an empty ring, and `Space.DirectFill` in general.
  - The unconditional direct streaming round trip does not hold as written: it can hit the tail-at-0 defect.
- RingBuffer/Tests/Test1.c:100-102, 137 and 143 expect the linear free space to equal the free space at the empty state and when tail is 0. They are written against a `RingBuffer/RingBuffer.c` that is not part of this model, and they contradict RingTest/RingBuffer.c:206-209. They are not asserted. `Space.FreeLinearAgainstRun` states exactly where the two differ.
- Concurrency between a producer and a consumer, and memory ordering, are not modelled: the methods run one at a time.
- The `min` macro's double evaluation has no observable effect here, and is modelled as `Bits.Min`.

## Findings

| source | as written | input that shows it | evidently intended | confidence | as-written member | corrected member |
|---|---|---|---|---|---|---|
| RingTest/RingBuffer.c:206-207 | the empty state reports `size - 2` linear free bytes | capacity 1 (`RING_InitBuffer(NULL, 1)`), head = tail = 0: `size - 2` wraps to `2^32 - 1`, so a direct write is granted up to `2^32 - 1` bytes of a one-byte ring | at most the free space, 0 here; the fresh state from capacity 2 on keeps `size - 2` | not executed | Space.CapacityOneUnderflow, Scenarios.CapacityOneGrant, RingBuffer.RingData.AddBufferDirectly | Space.FreeLinearIntended, Space.IntendedChangesOnlyDefects, RingBuffer.RingData.AddBufferDirectlyIntended |
| RingTest/RingBuffer.c:208-209 | with head >= tail the linear free space is `size - head`, also when tail is 0 | capacity 4, head 3, tail 0: the ring is full, yet one byte is granted, head moves to 0 = tail, and the 3 stored bytes read as gone | `size - head - 1` when tail is 0 and head is not, never more than the free space | not executed | Space.FullBufferGrantsOneByte, Space.TailZeroGrantEmpties, Scenarios.FullRingLosesData | Space.FreeLinearIntended, Space.IntendedGrantIsSafe, RingBuffer.RingData.AddBufferDirectlyIntended, Scenarios.DirectWriteIntended, Scenarios.FullRingKeepsData |
