# LongHyperLoop: a verified model of a broadcast ring channel

`LongHyperLoop` (package `z.channel`) is a single-producer, multi-consumer broadcast
channel of 64-bit values. It is a fixed ring of `nBufferSlots` slots, a power of two of at
least 8. It keeps:

- a producer write cursor, which only grows;
- one read cursor per registered consumer (`OutPort`), which also only grows;
- a cached minimum of those read cursors, which is refreshed only when the ring looks full.

Logical position `c` lives in slot `c & bufferSlotMask`, which is `c % nBufferSlots`.
`send` rejects a value while `writeCursor == minReadCursor + nBufferSlots`; that is the
backpressure from the slowest consumer. Every consumer reads every value (fan-out), each
at its own pace.

The model has four modules:

- `Bits` (`bits.dfy`): the bitwise AND of the slot mask, Java's `Integer.bitCount`, and
  powers of two. It proves that `bitCount(n) == 1` means "n is a power of two", and that
  `c & (2^k - 1) == c % 2^k`.
- `RingModel` (`ring.dfy`): the channel as a value `Loop`, one function per step (`Send`,
  `SendTo`, `AddPort`, `Receive`) and the lemmas about a single step. The central notion is
  `Pending(s, i)`: the values consumer `i` has yet to read, oldest first, i.e. the slots of
  logical positions `readCursors[i] .. writeCursor - 1`. Two invariants are kept:
  - `Valid`: the structural invariant, preserved by every step;
  - `Backpressured`: the cached minimum is at most every read cursor, and the producer is at
    most one ring ahead of it.
- `Fifo` (`fifo.dfy`): runs of steps (`SendAll`, `ReceiveN`, `AddPorts`, and
  `ReceiveSchedule` for polls by several consumers in any order). It proves
  single-consumer FIFO, broadcast fan-out under any interleaving of the consumers' polls,
  overflow rejection with no consumers, and the late-joiner overrun.
- `Channel` (`channel.dfy`): the two Java classes, modelled imperatively.
  - `LongHyperLoop` has an `array<int64>` buffer, the `writeCursor` and `minReadCursor`
    fields, and a `readCursors: seq<nat>` field that `createOutPort` grows.
  - `OutPort` is a handle that holds its channel and its index into `readCursors`.
  - Every method's postcondition gives the new fields outright and ties the new state to
    the RingModel step function. The lemmas therefore carry over to the objects.
  - `FanOutScenario` is a client of the contracts alone (two consumers, one send, a
    receive by each, then nothing left to receive).

Modelling decisions:

- Raw addresses, cache-line padding and page alignment become plain fields. A consumer's
  cursor address becomes an index into `readCursors`.
- Cursors are unbounded `nat`s. Values are `int64` (Java `long`). The constructor argument
  is `int32` (Java `int`).
- `contract(cond)` (from `z/util/Contracts.java`, which is not part of this model) is
  taken to throw when `cond` is false. `LongHyperLoop.Create` models the constructor's two
  checks as a `ContractViolation` failure. The anonymous constructor is the same
  construction with those checks as its precondition.
- With no consumer registered, the minimum scan in `send` reads the 8-byte word at the
  consumer-count address (landz.kernel/src/z/channel/LongHyperLoop.java:123-124). The
  constructor writes only 4 bytes there, the count 0 (line 111). The other 4 bytes are
  off-heap memory that nothing clears. The model assumes those unwritten bytes are zero,
  so the word read is 0 (`ScanMin([]) == 0`); with no consumers a full ring then stays
  full for good.
- The scan visits the cursors newest first, as the source does (`ScanReadCursors`). Its
  result is specified as the order-independent minimum `MinOf`.
- Each constructor leaves the buffer's initial contents unspecified. The off-heap
  memory is not cleared.
- A consumer registered after the cached minimum has moved starts at logical position 0,
  as the source does (its cursor is written as 0, `//TODO: clear the readCursor`). The
  model keeps this behaviour and states what it costs:
  - `AddPortBackpressure`: registration keeps the backpressure invariant exactly when
    `minReadCursor == 0`.
  - `AddPortReplaysFromZero`: the newcomer's pending values are the whole buffer from
    position 0 on.
  - `LateJoinerIsLapped`: because the full test is an exact equality, the producer can
    then run more than one ring ahead of the newcomer.
  - `LappedSendsAlwaysAccepted` and `LateJoinerLosesBackpressure`: once the producer is
    more than one ring ahead of the cached minimum, the full test never holds again.
    Every later send is accepted, so backpressure is lost for every consumer for good.

## Model

| member | source | states |
|---|---|---|
| `Bits.BitAnd` | landz.kernel/src/z/channel/LongHyperLoop.java:135 | the AND of cursor and mask never exceeds either operand, so a masked cursor indexes the buffer |
| `Bits.BitCount` | landz.kernel/src/z/channel/LongHyperLoop.java:80 | the count of one bits is at most n, and it is 0 exactly for n = 0 |
| `Bits.BitCountOneIffPowerOfTwo` | landz.kernel/src/z/channel/LongHyperLoop.java:80 | `Integer.bitCount(n) == 1` holds iff n is 2^k for some k |
| `Bits.MaskIsMod` | landz.kernel/src/z/channel/LongHyperLoop.java:82 | `c & (2^k - 1) == c % 2^k` for every cursor c |
| `Bits.MaskIsModPowerOfTwo` | landz.kernel/src/z/channel/LongHyperLoop.java:81-82 | for a power-of-two slot count n, `c & (n - 1) == c % n` |
| `RingModel.CapacityContractMeaning` | landz.kernel/src/z/channel/LongHyperLoop.java:79-80 | the two constructor checks accept exactly the powers of two that are at least 8 |
| `RingModel.CapacityContract` | landz.kernel/src/z/channel/LongHyperLoop.java:79-80 | the constructor's two checks, in order: at least 8 slots, and exactly one bit set |
| `RingModel.DefaultCapacityAccepted` | landz.kernel/src/z/channel/LongHyperLoop.java:62-64 | the default capacity 512 passes both checks |
| `RingModel.Init` | landz.kernel/src/z/channel/LongHyperLoop.java:78-111 | a new channel has mask n - 1, both cursors at 0 and no consumers; it is valid and backpressured |
| `RingModel.Slot` | landz.kernel/src/z/channel/LongHyperLoop.java:135 | the slot `cursor & bufferSlotMask` equals `cursor % nBufferSlots` and lies inside the buffer |
| `RingModel.MinOfSuffix` | landz.kernel/src/z/channel/LongHyperLoop.java:124-129 | one step of the newest-first scan: the minimum of a suffix of the cursors is the smaller of its first cursor and the minimum of the rest |
| `RingModel.MinOf` | landz.kernel/src/z/channel/LongHyperLoop.java:124-129 | the scan result is one of the cursors and no cursor is below it |
| `RingModel.ScanMin` | landz.kernel/src/z/channel/LongHyperLoop.java:123-129 | the scan's result: 0 with no consumers (the count word, its unwritten bytes taken as zero), otherwise one of the cursors and below none |
| `RingModel.Full` | landz.kernel/src/z/channel/LongHyperLoop.java:122 | the producer's full test is the exact equality `writeCursor == minReadCursor + nBufferSlots`, not `>=` (see `FullTestIsExact`) |
| `RingModel.Refresh` | landz.kernel/src/z/channel/LongHyperLoop.java:124-130 | replacing the cached minimum by the scan keeps the state valid |
| `RingModel.Write` | landz.kernel/src/z/channel/LongHyperLoop.java:134-137 | storing at the producer's slot and advancing the producer keeps the state valid |
| `RingModel.Send` | landz.kernel/src/z/channel/LongHyperLoop.java:119-140 | a send in either branch keeps the state valid and never moves a consumer or changes the capacity |
| `RingModel.SendToProceeds` | landz.kernel/src/z/channel/LongHyperLoop.java:147-157 | the sequential run of `sendTo`'s loop ends: the ring is not full, or not full after one refresh (see `SendToIsSendRetried`) |
| `RingModel.SendTo` | landz.kernel/src/z/channel/LongHyperLoop.java:143-164 | a sendTo that makes progress keeps the state valid |
| `RingModel.AddPort` | landz.kernel/src/z/channel/LongHyperLoop.java:185-193 | registering a consumer keeps the state valid (its zero cursor is not ahead of the producer) |
| `RingModel.IsReceivable` | landz.kernel/src/z/channel/LongHyperLoop.java:196-199 | consumer i is receivable iff its cursor differs from the write cursor (see `ReceivableIffPending`) |
| `RingModel.Receive` | landz.kernel/src/z/channel/LongHyperLoop.java:217-229 | a receive keeps the state valid and the consumer count |
| `RingModel.PendingAt` | landz.kernel/src/z/channel/LongHyperLoop.java:224-225 | a consumer's k-th pending value is the slot of logical position `readCursor + k`, taken modulo the slot count |
| `RingModel.PendingDependsOnCursors` | landz.kernel/src/z/channel/LongHyperLoop.java:219-225 | what a consumer has pending depends only on the buffer, the write cursor and its own cursor |
| `RingModel.SlotsDistinct` | landz.kernel/src/z/channel/LongHyperLoop.java:135 | positions less than one ring apart map to different slots |
| `RingModel.FullTestIsExact` | landz.kernel/src/z/channel/LongHyperLoop.java:122 | under backpressure, the exact equality `writeCursor == minReadCursor + nBufferSlots` agrees with `>=` |
| `RingModel.PendingFitsRing` | landz.kernel/src/z/channel/LongHyperLoop.java:122 | under backpressure no consumer has more than one ring of values pending |
| `RingModel.ReceivableIffPending` | landz.kernel/src/z/channel/LongHyperLoop.java:196-199 | a consumer is receivable iff it has a value pending |
| `RingModel.SendKeepsBackpressure` | landz.kernel/src/z/channel/LongHyperLoop.java:122-139 | both branches of send keep: cached minimum at most every read cursor, and write cursor at most cached minimum + nBufferSlots |
| `RingModel.SendBroadcasts` | landz.kernel/src/z/channel/LongHyperLoop.java:122-139 | an accepted value is appended to every consumer's pending values; a rejected send changes nobody's |
| `RingModel.BackpressureRelease` | landz.kernel/src/z/channel/LongHyperLoop.java:122-131 | at a full ring, send rejects; the next send succeeds iff the slowest consumer has moved past the cached minimum |
| `RingModel.NoConsumersStayFull` | landz.kernel/src/z/channel/LongHyperLoop.java:123-131 | with no consumers, a full ring rejects and the state is left exactly as it was |
| `RingModel.SendToIsSendRetried` | landz.kernel/src/z/channel/LongHyperLoop.java:143-164 | sendTo equals send, retried once after a rejection, and that retry succeeds |
| `RingModel.ReceivePops` | landz.kernel/src/z/channel/LongHyperLoop.java:217-229 | receive fails with "nothing to receive" iff nothing is pending, and then leaves the state unchanged; otherwise it returns the oldest pending value and drops it from its own consumer only |
| `RingModel.ReceiveKeepsBackpressure` | landz.kernel/src/z/channel/LongHyperLoop.java:217-229 | receive keeps the backpressure invariant |
| `RingModel.AddPortBackpressure` | landz.kernel/src/z/channel/LongHyperLoop.java:185-193 | registration keeps the backpressure invariant iff the cached minimum is still 0 |
| `RingModel.AddPortReplaysFromZero` | landz.kernel/src/z/channel/LongHyperLoop.java:185-193 | the new consumer's pending values are the buffer from logical position 0 on; other consumers are unaffected |
| `Fifo.SendAll` | landz.kernel/src/z/channel/LongHyperLoop.java:119-140 | a run of sends keeps the state valid and never moves a consumer |
| `Fifo.ReceiveN` | landz.kernel/src/z/channel/LongHyperLoop.java:217-229 | a run of receives keeps the state valid and yields one result per call |
| `Fifo.AddPorts` | landz.kernel/src/z/channel/LongHyperLoop.java:185-193 | m registrations append m zero cursors and change nothing else |
| `Fifo.SendAllBroadcasts` | landz.kernel/src/z/channel/LongHyperLoop.java:122-139 | sends that fit in the ring are all accepted and appended in order to every consumer's pending values |
| `Fifo.ReceiveNDelivers` | landz.kernel/src/z/channel/LongHyperLoop.java:217-229 | k receives return the k oldest pending values in order and remove only those |
| `Fifo.FifoOrder` | landz.kernel/src/z/channel/LongHyperLoop.java:122-139 | a caught-up consumer receives exactly the values sent, in order, then is not receivable and receive fails |
| `Fifo.BroadcastFanOut` | landz.kernel/src/z/channel/LongHyperLoop.java:217-229 | two caught-up consumers each receive every sent value in order, whichever polls first |
| `Fifo.FreshChannelDelivers` | landz.kernel/src/z/channel/LongHyperLoop.java:109-139 | on a new channel with consumers registered before the first send, up to nBufferSlots sends succeed and each consumer receives them in order |
| `Fifo.NoConsumersOverflow` | landz.kernel/src/z/channel/LongHyperLoop.java:122-131 | with no consumers, a new channel accepts nBufferSlots sends, after which every send returns false and changes nothing |
| `Fifo.LateJoinerIsLapped` | landz.kernel/src/z/channel/LongHyperLoop.java:185-193 | a consumer registered once the cached minimum is positive lets the producer run more than one ring ahead of it |
| `Fifo.LappedSendsAlwaysAccepted` | landz.kernel/src/z/channel/LongHyperLoop.java:122-139 | once the producer is more than one ring ahead of the cached minimum, every further send is accepted and each consumer falls one value further behind per send |
| `Fifo.LateJoinerLosesBackpressure` | landz.kernel/src/z/channel/LongHyperLoop.java:185-193 | after a late registration at a full ring, any run of sends is accepted in full and the newcomer has more than one ring plus the run pending |
| `Fifo.ReceiveSchedule` | landz.kernel/src/z/channel/LongHyperLoop.java:217-229 | a run of receives by the consumers a schedule names keeps the state valid and yields one result per poll |
| `Fifo.ScheduleDelivers` | landz.kernel/src/z/channel/LongHyperLoop.java:217-229 | under any interleaving of polls, each consumer receives its oldest pending values in order and keeps the rest |
| `Fifo.CaughtUpReceivesRun` | landz.kernel/src/z/channel/LongHyperLoop.java:122-139 | after sends that fit in the ring, every caught-up consumer has exactly the sent values pending |
| `Fifo.BroadcastAnyInterleaving` | landz.kernel/src/z/channel/LongHyperLoop.java:217-229 | after sends that fit in the ring, whatever order caught-up consumers poll in, each receives a prefix of the sent values in order |
| `Channel.LongHyperLoop.constructor` | landz.kernel/src/z/channel/LongHyperLoop.java:78-111 | from a valid capacity: mask n - 1, both cursors 0, no consumers, a fresh n-slot buffer |
| `Channel.LongHyperLoop.Create` | landz.kernel/src/z/channel/LongHyperLoop.java:78-82 | fails with a contract violation iff the capacity is below 8 or not a power of two; otherwise a new channel in its initial state |
| `Channel.LongHyperLoop.CreateDefault` | landz.kernel/src/z/channel/LongHyperLoop.java:62-64 | a new channel of 512 slots, mask 511, cursors 0, no consumers |
| `Channel.LongHyperLoop.ScanReadCursors` | landz.kernel/src/z/channel/LongHyperLoop.java:124-129 | the newest-first scan returns the minimum of the read cursors (one of them, below none), 0 with no consumers |
| `Channel.LongHyperLoop.Send` | landz.kernel/src/z/channel/LongHyperLoop.java:119-140 | returns false iff `writeCursor == minReadCursor + nBufferSlots`; then only the cached minimum changes, to the scan's result; otherwise slot `writeCursor % nBufferSlots` gets the value, the write cursor grows by 1, nothing else changes |
| `Channel.LongHyperLoop.SendTo` | landz.kernel/src/z/channel/LongHyperLoop.java:143-164 | after at most one refresh, the value goes to slot `writeCursor % nBufferSlots` and the write cursor grows by 1 |
| `Channel.LongHyperLoop.CreateOutPort` | landz.kernel/src/z/channel/LongHyperLoop.java:172-174 | appends one zero cursor; the new handle indexes it; existing cursors unchanged |
| `Channel.OutPort.constructor` | landz.kernel/src/z/channel/LongHyperLoop.java:185-193 | the consumer count grows by exactly 1, the new cursor is 0, existing cursors are unchanged |
| `Channel.OutPort.IsReceivable` | landz.kernel/src/z/channel/LongHyperLoop.java:196-199 | true iff this consumer's cursor differs from the write cursor, i.e. iff it has a value pending |
| `Channel.OutPort.NotReceivable` | landz.kernel/src/z/channel/LongHyperLoop.java:201-204 | true iff the cursors are equal: the exact negation of IsReceivable |
| `Channel.OutPort.Receive` | landz.kernel/src/z/channel/LongHyperLoop.java:217-229 | fails with "nothing to receive" iff caught up, changing nothing; otherwise returns slot `readCursor % nBufferSlots` and advances only this consumer's cursor by 1 |
| `Channel.OutPort.Received` | landz.kernel/src/z/channel/LongHyperLoop.java:241-251 | once a value is available: returns slot `readCursor % nBufferSlots` and advances only this cursor by 1 |
| `Channel.OutPort.ReceiveAll` | landz.kernel/src/z/channel/LongHyperLoop.java:254-264 | once a value is available: advances only this cursor by 1 and drops the value |

## Left out

- Off-heap allocation, page rounding, cache-line padding and the `SIZE_HYPERLOOP_BASE` header
  (landz.kernel/src/z/channel/LongHyperLoop.java:84-107) are memory layout. They are replaced by fields, so
  the 28-consumer limit of a 4096-byte header and the overflow of `nBufferSlots << 3` for
  capacities of 2^28 and more are not modelled.
- Memory fences, volatile versus plain loads and the `synchronized (OutPort.class)` lock exist for
  concurrency. The model is sequential: each method is one atomic step.
- `Channel.LongHyperLoop.SendTo` and `RingModel.SendTo`: require that the ring is not full, or not full after one refresh.
  Run sequentially, the source's loop spins forever otherwise, and `Thread.yield` is not modelled.
- `Channel.OutPort.Received` and `Channel.OutPort.ReceiveAll`: only the step after the wait is
  modelled, under the precondition that a value is available. Their spin loops cannot make progress
  in a sequential model.
- `finalize` and `systemFreeMemory` release memory and are left out.
- Cursors are unbounded: the wrap of a Java `long` after 2^63 sends is not modelled.
- `z/util/Throwables.java` wraps exceptions and prints stack traces. It has no stateable logic and is
  not part of this model. Neither are the allocator benchmark, the JVM bug reproducer and the HTTP
  `Response` holder.
