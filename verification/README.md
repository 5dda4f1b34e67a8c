# Verified model of the low-latency queues and the seqlock

This project models the three lock-free, single-writer protocols of the crate and proves what they
promise, for every interleaving of their threads:

- the **SPMC broadcast ring**: `publish` overwrites slots that carry an even/odd generation stamp, and
  any number of consumers read them with a private cursor, detecting torn reads and laps;
- the **SPSC bounded FIFO**: a Lamport ring in which each side keeps a stale copy of the other's index,
  and slots may be uninitialised;
- the **seqlock**: one writer, many readers, one value of several words;

and, on top of the queues, the shutdown handshakes of two benchmarks and their Q32 send schedule.

## How it is built

Each protocol is written at three levels.

1. A **step machine** (`Spmc`, `Spsc`, `SeqLock`). One step is one atomic load or store, one slot
   access, or the copy of one payload word; the words of a payload are written and read one at a time in
   any order, so torn reads are possible. A run is an arbitrary sequence of actions of all threads; an
   action that its thread cannot take at its program point changes nothing. The machine is written once
   over a `Width`: `Unbounded` counters, or the wrapping words of `Bits(b)`.
2. **Theorems** about all runs over unbounded counters (`SpmcInvariant`, `SpmcTheorems`, `SpscTheorems`,
   `SeqLockTheorems`), and a **wrap-around refinement** (`SpmcWrap`, `SpscWrap`, `SeqLockWrap`): reducing
   every counter modulo `2^b` commutes with every step, and with whole runs, under an exact condition.
3. The **code** (`SpmcCode`, `SpscCode`, `SeqLockCode`): classes with the fields, the retry loops, the
   mask and the wrapping arithmetic of the source. A method does not run alone: it takes the schedule of
   the other thread as an argument, and before each access to shared memory that thread performs an
   arbitrary number of its own steps. Each method is proved to take the steps of the machine and to
   copy no word twice in a pass, so what is proved of runs holds of the code: what a result means, and
   that a call which the schedule leaves room for does return.

Fields such as `hist`, `log`, `vers`, `base` and `copies` only record what has happened; no step depends on
them.

## What holds, and where the code is narrower than its words

- The SPMC lag bound. Wrapping stamps are twice the cursor, so a consumer must stay within `2^(b-1)`
  publications of the writer. `SpmcWrap.ReaderSquare` and `WrapExact` give the exact condition under which
  a wrapping reader decides as an unbounded one, at one step and in a whole run, `LagBound` a bound that guarantees it, and `LagBoundSharp` a run,
  for every width of two bits or more and every capacity, in which one publication more makes the code
  return the wrong value.
- The seqlock version bound. `SeqLockWrap.ReaderSquare` and `WrapExact` are exact; `VersionBoundSharp` builds, for every
  width, a run with `2^(b-1)` writes between the two loads that returns a value never written.
- The SPSC indices need no bound: `SpscWrap.WrapRefines` holds for runs of any length. It is stated for
  modular arithmetic; in a build that checks overflow the two plain increments would stop the program
  instead (src/spsc/producer.rs:103, src/spsc/consumer.rs:100).
- The documentation of `try_read` says that a torn read is retried (src/spmc/consumer.rs:141-144). The
  loop does go round again, but the retry can only end in `Lapped`: see `TornEndsInLapped`.
- The crate documentation says a consumer misses nothing unless it falls behind by more than `CAPACITY`
  slots (src/lib.rs:11-14). By the write cursor this is too wide: `LostWithinCapacity` is a run that is
  never more than `CAPACITY` behind and misses a value. The exact moment is when the publication that
  reuses the consumer's next slot begins, which is before the write cursor shows it: before it the next
  result is the value (`NextResult`), after it the next result is a lap (`OverrunLoses`) and the value is
  never delivered (`ValueLost`); `NextResultExact` has both directions.
- A call that runs alone does not always return while the writer stands between its odd and its even
  store: `SoloReturns` says exactly when it does, for the ring and for the seqlock.
- `skipped` can be 0, for capacity 1 only: see `ResultSound` and `LapOfNothing`.
- The send schedule's accumulator is safe below item `2^32` for all inputs and can overflow at item
  `2^32`: see `NoOverflow` and `OverflowAtQ`. A build that checks overflow stops there, and `MakeSchedule`
  gives the exact condition; a release build wraps, and still computes every tick right.

## Model

| member | source | states |
|---|---|---|
| `Words.MaskIsMod` | src/spmc/consumer.rs:231-242 | `i & (CAPACITY - 1)` is the remainder of `i` for every power-of-two capacity |
| `Words.BitAndBits` | src/spmc/consumer.rs:231-242 | the modelled `&` has exactly the bits that both operands have |
| `Words.SlotsInOrder` | src/spmc/queue.rs:167-177 | which slot a position has: positions below `CAPACITY` their own, and every lap the same as the one before |
| `SpmcInvariant.WriterKeepsRing` | src/spmc/queue.rs:138-151 | every store of `publish`, payload words in any order, keeps: an even stamp marks a whole value of its own generation, an odd stamp the one slot being copied, and no slot goes back to an earlier generation |
| `SpmcInvariant.ReaderKeeps` | src/spmc/consumer.rs:160-215 | every step of `try_read` keeps the reader's side: cursors in order, a copy whose stamp has not moved agrees with the published value, results consistent with the cursor |
| `SpmcInvariant.Reachable` | src/spmc/queue.rs:73-97 | the invariant holds after every interleaving of one publisher, any number of consumers, and clones, from the initialised ring |
| `SpmcInvariant.SealedStamp` | src/spmc/consumer.rs:169-177 | the slot of a sealed value carries that value, or a stamp of a generation at least one lap later |
| `SpmcTheorems.ReaderStream` | src/spmc/consumer.rs:160-205 | integrity and accounting: the values a consumer received are whole published values at strictly increasing positions, never torn and never the initial zeroes, and values plus skipped values equal the distance its cursor moved |
| `SpmcTheorems.ReadersAgree` | src/spmc/consumer.rs:43-52 | two consumers, at two moments of a run, never disagree on the value at a position |
| `SpmcTheorems.CloneContinues` | src/spmc/consumer.rs:86-98 | a clone receives only positions from its parent's cursor on, and accounts for all of them |
| `SpmcTheorems.CloneJoins` | src/spmc/consumer.rs:91-97 | a clone has both of its parent's cursors, the read cursor and the cached write cursor, and nothing else changes |
| `SpmcTheorems.CloneCallsAlike` | src/spmc/consumer.rs:86-98 | from the same ring, the clone's calls take the steps its parent's would and give the same results |
| `SpmcTheorems.CursorCached` | src/spmc/consumer.rs:161-166 | in every interleaving, a consumer that is not lapped loads the shared write cursor no more until it has read up to the one it last loaded |
| `SpmcTheorems.CursorKept` | src/spmc/consumer.rs:208-215 | a load that finds values is kept: the next is due only when all of them have been read |
| `SpmcTheorems.NeverOverrunSeesAll` | src/lib.rs:11-14 | a consumer whose next slot is never being reused receives exactly the published values from its first position, in order, with no lap |
| `SpmcTheorems.ResultSound` | src/spmc/consumer.rs:177-201 | what each of the three results means when it is returned; `Lapped` only after value `r + CAPACITY` is sealed, landing on the newest value, with `skipped >= CAPACITY - 1`, and `skipped` is 0 if and only if the capacity is 1 and the writer is between the even stamp and the cursor store |
| `SpmcTheorems.LapOfNothing` | src/spmc/queue.rs:147-150 | a run in which `Lapped` skips nothing exists, for capacity 1 and any two payloads |
| `SpmcTheorems.NextResult` | src/spmc/consumer.rs:160-205 | from any reachable state, the first result of a consumer at a published position, returned before the publication that reuses its slot begins, is that position's value |
| `SpmcTheorems.OverrunLoses` | src/spmc/consumer.rs:177-191 | the other half: once the publication that reuses the consumer's next slot has begun, from whatever program point, its next result is `Lapped`, and its cursor stays where it is until then |
| `SpmcTheorems.NextResultExact` | src/spmc/consumer.rs:160-205 | the next result is value `r` if and only if publication `r + CAPACITY` has not begun when it is returned, `Lapped` if and only if it has, and `Empty` if and only if `r` is the write cursor |
| `SpmcTheorems.ValueLost` | src/lib.rs:11-14 | a value whose slot is reused before the consumer passes it is delivered to that consumer in no continuation |
| `SpmcTheorems.LostWithinCapacity` | src/lib.rs:11-14 | for every capacity and all payloads, a run in which the consumer is never more than `CAPACITY` behind the write cursor and still is lapped over the value it was at |
| `SpmcTheorems.LapRecovery` | src/spmc/consumer.rs:178-191 | after a `Lapped` that loaded write cursor `w`, the next result is value `w - 1` unless publication `w - 1 + CAPACITY` has begun |
| `SpmcTheorems.TornEndsInLapped` | src/spmc/consumer.rs:170-204 | once the slot's stamp is not the expected one, odd included, the call begins no further copy and can only end in `Lapped` |
| `SpmcTheorems.OneCopyPerCall` | src/spmc/consumer.rs:193-203 | no call of any run copies the payload more than once |
| `SpmcTheorems.CopiesNeedResults` | src/spmc/consumer.rs:193-203 | the same without the counter: between two stamp loads at which a consumer begins a copy there is a result |
| `SpmcTheorems.SoloTerminates` | src/spmc/consumer.rs:170-204 | from any program point, with the writer still and not copying into the slot, the reader always has a step and returns exactly one result within an explicit measure |
| `SpmcTheorems.SoloReturns` | src/spmc/consumer.rs:160-204 | the exact condition: a call in progress that runs alone for `nw + 4` steps returns if and only if its slot's stamp is even, or it only has the write cursor to reload, or it is about to find the queue empty |
| `SpmcTheorems.WaitFreeUnlessOverrun` | src/spmc/consumer.rs:126-130 | in every interleaving in which the slot is not being reused, value available or queue empty, and from any program point, a call returns within `nw + 4` steps of its own |
| `SpmcTheorems.DelayedBySpinsOnly` | src/spmc/consumer.rs:126-144 | in every interleaving, overruns and laps included, a call returns within `nw + 6` steps of its own besides the stamp loads that find the writer copying into its slot |
| `SpmcTheorems.SoloResult` | src/spmc/consumer.rs:160-215 | a call that runs alone with the writer idle returns `Empty`, the value, or the lap that the history and the cursor determine, from any point of the call and whatever the cached write cursor is |
| `SpmcTheorems.CallAlone` | src/spmc/queue.rs:306-327 | the same for whole calls after any run of publications, clones and reads |
| `SpmcWrap.WriterSquare` | src/spmc/queue.rs:139-150 | `publish` on `b`-bit words is `publish` on unbounded counters with its counters reduced |
| `SpmcWrap.ReaderSquare` | src/spmc/consumer.rs:161-200 | a step of `try_read` on `b`-bit words is the unbounded step, reduced, if and only if its next comparison is not between two different numbers equal modulo `2^b` |
| `SpmcWrap.LagBound` | src/spmc/consumer.rs:161-199 | a reader at most `2^(b-1)` publications behind never meets such a comparison |
| `SpmcWrap.WrapExact` | src/spmc/consumer.rs:160-205 | for runs of any length from any state, the wrapping machine is the unbounded one reduced, at every moment, if and only if no comparison of the run is between two different numbers equal modulo `2^b` |
| `SpmcWrap.WrapRefines` | src/spmc/consumer.rs:160-205 | for runs of any length within the lag bound, from any reachable state, the wrapping machine is the unbounded one reduced, and every result, `skipped` included, is the same |
| `SpmcWrap.WrappedReaderStream` | src/spmc/consumer.rs:160-205 | integrity and accounting for the wrapping machine |
| `SpmcWrap.LagBoundSharp` | src/spmc/consumer.rs:169-177 | for every width of two bits or more, every capacity and all payloads, one publication beyond the bound there is a run that returns publication `2^(b-1)` in place of publication 0 |
| `SpmcCode.Queue.constructor` | src/spmc/queue.rs:73-94 | every slot starts with an even stamp and zeroed contents |
| `SpmcCode.Queue.SlotOf` | src/spmc/queue.rs:167-177 | the index is the position masked with `CAPACITY - 1`, which is the slot of the position and inside the array |
| `SpmcCode.Queue.Publish` | src/spmc/queue.rs:138-151 | the method performs exactly the stores of the machine, in order, and appends its value to the history |
| `SpmcCode.Consumer.Clone` | src/spmc/consumer.rs:91-97 | a clone has the parent's queue, read cursor and cached write cursor, and no results yet |
| `SpmcCode.Consumer.IsStillEmpty` | src/spmc/consumer.rs:208-215 | the refreshed empty test, among the writer's stores, ends the call with `Empty` or lets it go on |
| `SpmcCode.Consumer.Attempt` | src/spmc/consumer.rs:160-205 | the retry loop, under any schedule of the writer, takes the steps of the machine interleaved exactly as scheduled, copies no word twice in a pass, returns the result it logged, and gives up only when the schedule ends |
| `SpmcCode.Consumer.TryRead` | src/spmc/consumer.rs:160-205 | under any schedule within the lag bound: `Value` is the whole value published at the cursor; `Empty` only if nothing published was unread at the call; `Lapped` only if the slot was reused, counts what the cursor jumped over, and lands on the newest value of a write cursor loaded during the call. It does return: within `nw + 4` entries of the schedule while the slot is not reused, and otherwise within `nw + 5` besides those that find the writer copying; and with the writer quiet it returns what the history and the cursor determine |
| `SpmcHandoff.HandoffComplete` | src/bench/harness/spmc/handoff.rs:99-183 | in every interleaving, when the consumer returns, all `n` values are published and values received plus skipped equal `n` |
| `SpmcHandoff.WrappedHandoffComplete` | src/bench/harness/spmc/handoff.rs:99-183 | the same on wrapping words for any number of values, while the consumer is within the lag bound when it steps |
| `SpmcHandoff.FewValuesWithinLag` | src/bench/harness/spmc/handoff.rs:99-183 | for up to `2^(b-1)` values it always is |
| `SpmcHandoff.AskedWhenEmpty` | src/bench/harness/spmc/handoff.rs:99-122 | in every interleaving the consumer looks at the flag only between calls, after one that found nothing |
| `SpmcHandoff.ReceivesNext` | src/bench/harness/spmc/handoff.rs:99-142 | the consumer does not wait for the flag: from any state, set or not and in any phase, a published value is received within `nw + 6` turns of the consumer, in every interleaving in which its slot is not reused |
| `SpmcHandoff.PacedSeesAll` | src/bench/harness/spmc/handoff.rs:144-183 | with a producer that begins to reuse a slot only when the consumer has had those turns for its value, for every capacity: at every moment all due values are received, in order, with no lap and nothing skipped, and on return all `n` |
| `SpmcHandoff.WrappedPacedSeesAll` | src/bench/harness/spmc/handoff.rs:144-183 | the same on wrapping words for any number of values, with no further bound |
| `SpmcHandoff.ShutdownEnds` | src/bench/harness/spmc/handoff.rs:98-142 | from any state of the benchmark with the flag set, the consumer on its own returns within an explicit number of steps, every value received or counted as skipped |
| `SpmcHandoff.ShutdownBound` | src/bench/harness/spmc/handoff.rs:98-142 | that number is at most `nw + 5` steps for each value ahead and for two calls more, and one for the flag |
| `SpmcHandoff.DrainReceives` | src/bench/harness/spmc/handoff.rs:122-139 | the drain phase, alone, receives exactly the unread values if the ring holds them all, and otherwise the newest one |
| `SpmcHandoff.RoundsEnd` | src/bench/harness/spmc/handoff.rs:98-183 | from any state of the benchmark, every run in which both threads take turns, in any order and at any relative speed, returns within an explicit number of rounds, all values published and received or counted as skipped |
| `SpmcHandoff.RoundBound` | src/bench/harness/spmc/handoff.rs:98-183 | that number is at most `(2 n + 3) (nw + 5)` |
| `SpmcHandoff.DrainLoop` | src/bench/harness/spmc/handoff.rs:122-139 | the loop over `try_read` of the code, on wrapping words, with the producer done and the consumer within the lag bound, ends, receives the same values as `DrainReceives`, and accounts for every position |
| `SpscTheorems.NextInv` | src/spsc/producer.rs:86-118 | every step of `push` and `pop` keeps: cached head <= head <= cached tail <= tail, a live item in exactly the slots between, and the log a run of the atomic FIFO |
| `SpscTheorems.Linearizable` | src/spsc/consumer.rs:83-112 | in every interleaving the calls in return order are an atomic bounded FIFO's: refused only when it holds `CAPACITY` items, empty-handed only when it holds none; popped items then contents are the pushed items |
| `SpscTheorems.NoFault` | src/spsc/consumer.rs:92-99 | no step reads a slot that holds no item or overwrites one that does: a producer about to write finds its slot empty, a consumer about to move out finds the oldest item |
| `SpscTheorems.HeadCached` | src/spsc/producer.rs:87-114 | in every interleaving the producer loads the shared head no more until it has filled the room its last load showed |
| `SpscTheorems.HeadKept` | src/spsc/producer.rs:111-118 | a load that finds room is kept |
| `SpscTheorems.TailCached` | src/spsc/consumer.rs:84-112 | in every interleaving the consumer loads the shared tail no more until it has popped the items its last load showed |
| `SpscTheorems.TailKept` | src/spsc/consumer.rs:108-112 | a load that finds items is kept |
| `SpscTheorems.RaceFree` | src/spsc/producer.rs:92-106 | between the full check and the tail store, and the empty check and the head store, the two sides are at different slots |
| `SpscWrap.NextSquare` | src/spsc/producer.rs:87-114 | on `b`-bit indices the full test, the empty test, the mask and the increments decide as on unbounded ones, in every reachable state |
| `SpscWrap.WrapRefines` | src/spsc/consumer.rs:84-111 | for runs of any length the wrapping machine is the unbounded one reduced |
| `SpscWrap.WrappedLinearizable` | src/spsc/queue.rs:59-77 | the wrapping queue from `new` is an atomic bounded FIFO without faults, and the wrapping difference of its indices is its length |
| `SpscCode.Queue.Drop` | src/spsc/queue.rs:83-99 | popped items followed by dropped items are the accepted items, each once and in order; no empty slot is dropped and none is left full |
| `SpscCode.Producer.StillFull` | src/spsc/producer.rs:111-118 | the refreshed full test is true exactly when the push is refused, and then the queue holds `CAPACITY` items |
| `SpscCode.Producer.Push` | src/spsc/producer.rs:86-108 | under any schedule of the consumer, its steps interleaved exactly as scheduled: the item comes back only if the queue is full at the head load, and otherwise is now its newest item; the consumer's side changes only by its own steps |
| `SpscCode.Consumer.StillEmpty` | src/spsc/consumer.rs:108-112 | the refreshed empty test is true exactly when the pop finds nothing, and then the queue is empty |
| `SpscCode.Consumer.Pop` | src/spsc/consumer.rs:83-105 | under any schedule of the producer, its steps interleaved exactly as scheduled: nothing only if the queue is empty at the tail load, and otherwise the oldest item not yet popped |
| `SpscThrottled.ThrottledComplete` | src/bench/harness/spsc/throttled.rs:269-362 | in every interleaving, with retries on a full queue, when the consumer stops it has popped exactly the items, in order |
| `SpscThrottled.WrappedThrottledComplete` | src/bench/harness/spsc/throttled.rs:269-362 | the same on wrapping indices, for any number of items |
| `SpscThrottled.AskedWhenEmpty` | src/bench/harness/spsc/throttled.rs:269-287 | in every interleaving the consumer looks at the flag only between pops, after one that found nothing |
| `SpscThrottled.PopsNext` | src/bench/harness/spsc/throttled.rs:269-303 | the consumer does not wait for the flag: from any state with an item in the queue, set or not and in any phase, it is popped within five turns of the consumer, in every interleaving |
| `SpscThrottled.ShutdownEnds` | src/bench/harness/spsc/throttled.rs:269-303 | from any state of the benchmark with the flag set, the consumer on its own stops within four steps for each item ahead and nine more, having popped exactly the items, in order |
| `SpscThrottled.RoundsEnd` | src/bench/harness/spsc/throttled.rs:269-362 | from any state of the benchmark, with the producer retrying on a full queue and the consumer polling an empty one, every run in which both threads take turns, in any order and at any relative speed, is over within `10 n + 15` rounds, all items popped in order |
| `SpscThrottled.WrappedRoundsEnd` | src/bench/harness/spsc/throttled.rs:269-362 | the same on wrapping indices, from the start of the benchmark |
| `SeqLockTheorems.NextInv` | src/seqlock/lock.rs:65-94 | every step of `write` and of any reader keeps: an even number `2k` marks version `k`, whole; reads so far are whole versions in an order that respects completed reads |
| `SeqLockTheorems.ReadsLinearize` | src/seqlock/lock.rs:78-94 | linearizability: every read of every run has a moment between its call and its return at which its value was in the cell, whole, as the last one written, and stayed so until it returned; so its version is not older than any whose write had begun when it was called, nor than any that a read returned before that call |
| `SeqLockTheorems.ReadsInOrder` | src/seqlock/lock.rs:78-94 | a read that had returned when another began takes effect before the other's call, and the other's version is the same or newer, on words of any width |
| `SeqLockTheorems.CloneJoins` | src/seqlock/reader.rs:27-36 | a clone adds one idle reader and changes nothing else |
| `SeqLockTheorems.CloneReads` | src/seqlock/reader.rs:27-36 | alone with the writer not mid-write, a clone's first read returns the current version within `nw + 3` steps |
| `SeqLockTheorems.ReadersReached` | src/seqlock/reader.rs:5-10 | every number of readers is reached by some run from the start, on words of any width |
| `SeqLockTheorems.SoloTerminates` | src/seqlock/lock.rs:79-93 | with the writer still and not mid-write, a reader alone returns the current version within an explicit measure, from any program point |
| `SeqLockTheorems.SoloReturns` | src/seqlock/lock.rs:79-93 | the exact condition: a read in progress that runs alone for `2 nw + 3` steps returns, and returns the current version, if and only if the writer is not between its odd and its even store |
| `SeqLockTheorems.ReadCost` | src/seqlock/lock.rs:78-94 | in every interleaving a read that has not returned has taken no more steps than one pass, one more for each write that began meanwhile, and the loads that found an odd number: work is repeated only because the writer made progress |
| `SeqLockWrap.ReaderSquare` | src/seqlock/lock.rs:80-91 | a step of `read` on a `b`-bit number is the unbounded step, reduced, if and only if its second load is not ambiguous |
| `SeqLockWrap.WrapExact` | src/seqlock/lock.rs:66-91 | for runs of any length from any state, the wrapping machine is the unbounded one reduced, at every moment, if and only if no second load of the run is ambiguous |
| `SeqLockWrap.WrapRefines` | src/seqlock/lock.rs:66-91 | with fewer than `2^(b-1)` writes between the loads of each read, the wrapping machine is the unbounded one reduced |
| `SeqLockWrap.WrappedReadsLinearize` | src/seqlock/lock.rs:78-94 | the same linearizability for the wrapping machine within the version bound: each read's value was whole and the last one written at a moment of its call, and no write begun before the call is missed |
| `SeqLockWrap.VersionBoundSharp` | src/seqlock/lock.rs:89-92 | for every width, `2^(b-1)` writes between the loads let a value through that was never written |
| `SeqLockCode.Lock.Write` | src/seqlock/lock.rs:65-75 | the method performs exactly the stores of the machine and leaves its value in the cell |
| `SeqLockCode.Lock.Attempt` | src/seqlock/lock.rs:78-94 | the retry loop, under any schedule of the writer, takes the steps of the machine interleaved exactly as scheduled, copies no word twice in a pass, returns the value it logged, and gives up only when the schedule ends |
| `SeqLockCode.Lock.Read` | src/seqlock/lock.rs:78-94 | under any schedule within the version bound, the result is one whole version that was current at a moment of the call, at least as new as any whose write had begun at the call and as every earlier result. It does return, within `nw + 2` entries of the schedule, as many again for each write that begins meanwhile, and those that find an odd number; undisturbed, it returns the current version within `nw + 2` |
| `Schedule.TickExact` | src/bench/harness/spsc/throttled.rs:246-249 | the tick, by inequalities: the whole ticks in the start time and `i` times the whole units of `1/2^32` tick per item |
| `Schedule.TickLoss` | src/bench/harness/spsc/throttled.rs:246-249 | item `i` is late by less than one tick and `i - 1` units of `1/2^32`; the first item is exact |
| `Schedule.ExactSchedule` | src/bench/harness/spsc/throttled.rs:246-249 | every item has the whole part of its exact time if and only if the rate divides the clock frequency in units of `1/2^32` tick |
| `Schedule.Drift` | src/bench/harness/spsc/throttled.rs:246-249 | the tick of item `i` is never early and at most one tick late for each `2^32` items; up to item `2^32` it is the whole part of the exact time or one less |
| `Schedule.DriftOccurs` | src/bench/harness/spsc/throttled.rs:249 | one tick less does occur |
| `Schedule.Nondecreasing` | src/bench/harness/spsc/throttled.rs:323-328 | the schedule, before the cast, never goes back |
| `Schedule.NoOverflow` | src/bench/harness/spsc/throttled.rs:323-327 | for all `u64` inputs the `u128` accumulator does not overflow below item `2^32` |
| `Schedule.OverflowAtQ` | src/bench/harness/spsc/throttled.rs:323-327 | item `2^32` can overflow it |
| `Schedule.WrapKeepsTick` | src/bench/harness/spsc/throttled.rs:327-328 | an accumulator that has wrapped around `2^128` still yields the same `u64` tick |
| `Schedule.MakeSchedule` | src/bench/harness/spsc/throttled.rs:323-328 | the loop on a wrapping accumulator gives every item its tick, cut to a `u64`, however often it wraps; it never wraps exactly when the last accumulator fits a `u128` |

## Left out

- Weak memory: loads and stores of stamps, cursors and indices are sequentially consistent; what the fences and acquire/release pairs order is modelled, the C11 memory model is not.
- The order of payload words in the code: `Attempt` and `Publish` copy words in ascending order; the step machines allow every order.
- The loops of the two shutdown handshakes: `HandoffComplete`, `ThrottledComplete`, `PacedSeesAll`, `ShutdownEnds` and `RoundsEnd` are stated over step machines with a phase for each loop, and only the SPMC drain loop, with the producer done, and the schedule loop are methods; the waits on the time stamp counter, histograms, `seen`, `full_pushes` and warm-up are not modelled.
- A `Producer` and a `Consumer` object driven in parallel: during a call of one, the other thread is the one in the schedule, whose cached indices and program point are kept in `Queue.abs`; the fields of the other object stay in step with it across calls with a quiet schedule, so calls on the two objects can be alternated.
- Starvation freedom of readers under a writer that never pauses: the code does not provide it; `DelayedBySpinsOnly` and `ReadCost` say what delays a reader.
- Allocators, huge pages, `mlock`, cache padding, `Send`/`Sync` markers and reference counting: one producer, one writer and one thread per consumer are taken as the shape of the machines, and a ring is an array of `CAPACITY` slots.
- Third-party adapters, preflight checks, reports and the other benchmarks: they add no protocol.
